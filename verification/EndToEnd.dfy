/**
 End to end: every path of a staged tree resolves through `befs_get` to what the host tree has
 there.
 */
module EndToEnd {
  import opened Bytes
  import opened BPlusTree
  import opened TreeReaders
  import opened RoundTrip
  import opened TreeSearch
  import opened BlockRuns
  import opened Inodes
  import opened Volume
  import opened Images
  import opened Staging
  import opened StageWriter
  import opened ReadBack

  // ---------------------------------------------------------------------------
  // The reference: paths on the host tree
  // ---------------------------------------------------------------------------

  /** `ThroughFile` is a path that goes on behind a file, with what is left of it. */
  datatype Answer =
    | NoSuch
    | IsFile(data: bytes)
    | IsDirectory(children: seq<Child>)
    | ThroughFile(data: bytes, rest: seq<bytes>)

  /** The first child with this name. */
  function FindChild(cs: seq<Child>, name: bytes): (r: Option<nat>)
    ensures r.Some? ==> r.value < |cs|
  {
    if cs == [] then None
    else if cs[0].name == name then Some(0)
    else match FindChild(cs[1..], name)
         case None => None
         case Some(i) => Some(i + 1)
  }

  ghost predicate AllDirs(hs: seq<Host>)
  {
    forall i :: 0 <= i < |hs| ==> hs[i].HostDir?
  }

  /** What a path names, given the directories from the root to the current one. `.` stays,
      `..` goes up and stays at the root. */
  ghost function Find(hs: seq<Host>, comps: seq<bytes>, i: nat): Answer
    requires |hs| >= 1 && AllDirs(hs) && i <= |comps|
    decreases |comps| - i
  {
    var cur := hs[|hs| - 1];
    if i == |comps| then IsDirectory(cur.children)
    else if comps[i] == DOT then Find(hs, comps, i + 1)
    else if comps[i] == DOT_DOT then Find(if |hs| > 1 then hs[..|hs| - 1] else hs, comps, i + 1)
    else
      match FindChild(cur.children, comps[i])
      case None => NoSuch
      case Some(k) =>
        var node := cur.children[k].node;
        if node.HostDir? then Find(hs + [node], comps, i + 1)
        else if i + 1 == |comps| then IsFile(node.data)
        else ThroughFile(node.data, comps[i + 1..])
  }

  /** What a path from the root of this tree names. */
  ghost function HostAnswer(cs: seq<Child>, comps: seq<bytes>): Answer
  {
    Find([HostDir(cs)], comps, 0)
  }

  // ---------------------------------------------------------------------------
  // Records that mirror the host tree and can be read back
  // ---------------------------------------------------------------------------

  ghost predicate Mirrors(r: Rec, h: Host)
    decreases r, 1
  {
    match r
    case FileRec(_, _, _, _, data, _) => h == HostFile(data)
    case DirRec(_, _, _, _, _, _, children) => h.HostDir? && MirrorsAll(children, h.children)
  }

  ghost predicate MirrorsAll(rs: seq<Rec>, cs: seq<Child>)
    decreases rs, 0
  {
    |rs| == |cs| && (rs != [] ==> rs[0].name == cs[0].name && Mirrors(rs[0], cs[0].node) && MirrorsAll(rs[1..], cs[1..]))
  }

  lemma {:induction false} PlaceMirrors(h: Host, name: bytes, vol: bytes, parent: nat, next: nat, blk: nat)
    requires ValidBlk(blk)
    ensures Mirrors(Place(h, name, vol, parent, next, blk), h)
    decreases h, 1
  {
    hide SplitRuns, Need, PageCount, SizingEntries;
    if h.HostDir? {
      PlaceAllMirrors(h.children, vol, next, next + 1 + PageCount(SizingEntries(h.children), blk), blk);
    }
  }

  lemma {:induction false} PlaceAllMirrors(cs: seq<Child>, vol: bytes, parent: nat, next: nat, blk: nat)
    requires ValidBlk(blk)
    ensures MirrorsAll(PlaceAll(cs, vol, parent, next, blk), cs)
    decreases cs, 0
  {
    hide Place, Mirrors;
    if cs != [] {
      PlaceMirrors(cs[0].node, cs[0].name, JoinPath(vol, cs[0].name), parent, next, blk);
      PlaceAllMirrors(cs[1..], vol, parent, next + BlocksFor(cs[0].node, blk), blk);
      var rs := PlaceAll(cs, vol, parent, next, blk);
      assert rs[1..] == PlaceAll(cs[1..], vol, parent, next + BlocksFor(cs[0].node, blk), blk);
      assert rs[0].name == cs[0].name by {
        PlaceAllNames(cs, vol, parent, next, blk);
      }
    }
  }

  lemma {:induction false} MirrorsAt(rs: seq<Rec>, cs: seq<Child>, i: nat)
    requires MirrorsAll(rs, cs) && i < |rs|
    ensures rs[i].name == cs[i].name && Mirrors(rs[i], cs[i].node)
    decreases i
  {
    hide Mirrors;
    if i > 0 {
      MirrorsAt(rs[1..], cs[1..], i - 1);
    }
  }

  /** Reading a block as a file, on a volume with this block size. */
  datatype FileReader = FileReader(read: int -> Result<bytes>, blk: nat)

  function FilesOf(v: Vol): FileReader
  {
    FileReader(b => FileBytes(v, b), v.blk)
  }

  /** A file read as a directory: its blocks, parsed as a tree. */
  function AsTree(data: bytes, blk: nat): Result<seq<Entry>>
  {
    if blk == 0 then Err(ZeroDivision) else GetEntries(Padded(data, blk), blk)
  }

  /** The reader gives back this directory node. */
  ghost predicate DirReadable(ns: Namespace, r: Rec)
  {
    r.DirRec? && ns.isDir(r.block) == Ok(true) && ns.entries(r.block) == Ok(RecEntries(r))
  }

  /** The reader gives back this node and everything below it. */
  ghost predicate Readable(ns: Namespace, files: FileReader, r: Rec)
    decreases r, 1
  {
    match r
    case FileRec(_, _, block, _, data, _) => ns.isDir(block) == Ok(false) && files.read(block) == Ok(data) && ns.entries(block) == AsTree(data, files.blk)
    case DirRec(_, _, block, _, _, _, children) => DirReadable(ns, r) && ReadableAll(ns, files, children, block)
  }

  ghost predicate ReadableAll(ns: Namespace, files: FileReader, rs: seq<Rec>, parent: nat)
    decreases rs, 0
  {
    rs == [] || (rs[0].parent == parent && Readable(ns, files, rs[0]) && ReadableAll(ns, files, rs[1..], parent))
  }

  lemma {:induction false} ReadableAt(ns: Namespace, files: FileReader, rs: seq<Rec>, parent: nat, i: nat)
    requires ReadableAll(ns, files, rs, parent) && i < |rs|
    ensures Readable(ns, files, rs[i]) && rs[i].parent == parent
    decreases i
  {
    hide Readable;
    if i > 0 {
      ReadableAt(ns, files, rs[1..], parent, i - 1);
    }
  }

  // ---------------------------------------------------------------------------
  // Scanning a directory for a child
  // ---------------------------------------------------------------------------

  function ChildEntries(rs: seq<Rec>): (r: seq<Entry>)
    ensures |r| == |rs|
  {
    seq(|rs|, i requires 0 <= i < |rs| => Entry(rs[i].name, rs[i].block))
  }

  lemma {:induction false} ScanChildren(rs: seq<Rec>, cs: seq<Child>, name: bytes)
    requires MirrorsAll(rs, cs)
    ensures Scan(ChildEntries(rs), name)
         == match FindChild(cs, name) case None => None case Some(k) => Some(rs[k].block)
    decreases |rs|
  {
    hide Mirrors;
    if rs != [] {
      ScanChildren(rs[1..], cs[1..], name);
      assert ChildEntries(rs)[1..] == ChildEntries(rs[1..]);
    }
  }

  /** One component, looked up in a directory. */
  lemma ScanDirectory(r: Rec, cs: seq<Child>, name: bytes)
    requires r.DirRec? && MirrorsAll(r.children, cs)
    ensures Scan(RecEntries(r), name)
         == if name == DOT then Some(r.block)
            else if name == DOT_DOT then Some(r.parent)
            else match FindChild(cs, name) case None => None case Some(k) => Some(r.children[k].block)
  {
    hide Mirrors;
    var es := RecEntries(r);
    assert es[1..][1..] == ChildEntries(r.children);
    assert Scan(es[1..], name) == if name == DOT_DOT then Some(r.parent) else Scan(es[1..][1..], name);
    ScanChildren(r.children, cs, name);
  }

  // ---------------------------------------------------------------------------
  // Listing a directory
  // ---------------------------------------------------------------------------

  function ListingOf(cs: seq<Child>): (r: seq<Listed>)
    ensures |r| == |cs|
  {
    seq(|cs|, i requires 0 <= i < |cs| => Listed(cs[i].name, cs[i].node.HostDir?))
  }

  /** No child is called `.` or `..`. */
  ghost predicate ProperNames(cs: seq<Child>)
  {
    forall i :: 0 <= i < |cs| ==> cs[i].name != DOT && cs[i].name != DOT_DOT
  }

  lemma MirrorsLength(rs: seq<Rec>, cs: seq<Child>)
    requires MirrorsAll(rs, cs)
    ensures |rs| == |cs|
  {
  }

  lemma {:induction false} ListChildren(ns: Namespace, files: FileReader, r: Rec, cs: seq<Child>, i: nat)
    requires r.DirRec? && MirrorsAll(r.children, cs) && ProperNames(cs)
    requires ReadableAll(ns, files, r.children, r.block) && i <= |cs|
    ensures ListFrom(ns, RecEntries(r), i + 2, ListingOf(cs)[..i]) == Ok(ListingOf(cs))
    decreases |cs| - i
  {
    hide Mirrors, MirrorsAll, Readable, ReadableAll;
    var es, all := RecEntries(r), ListingOf(cs);
    MirrorsLength(r.children, cs);
    if i == |cs| {
      assert all[..i] == all;
    } else {
      ChildFacts(ns, files, r, cs, i);
      assert r.children[i].name == cs[i].name by { MirrorsAt(r.children, cs, i); }
      assert es[i + 2] == Entry(r.children[i].name, r.children[i].block);
      assert all[..i + 1] == all[..i] + [all[i]];
      ListChildren(ns, files, r, cs, i + 1);
    }
  }

  /** `list_dir` returns exactly the children, with their kinds, in order. */
  lemma ListDirectory(ns: Namespace, files: FileReader, r: Rec, cs: seq<Child>)
    requires DirReadable(ns, r) && MirrorsAll(r.children, cs) && ProperNames(cs)
    requires ReadableAll(ns, files, r.children, r.block)
    ensures Listing(ns, r.block) == Ok(ListingOf(cs))
  {
    hide Mirrors, Readable;
    ListChildren(ns, files, r, cs, 0);
    var es := RecEntries(r);
    assert es[0].key == DOT && es[1].key == DOT_DOT;
    assert ListingOf(cs)[..0] == [];
    assert ListFrom(ns, es, 1, []) == ListFrom(ns, es, 2, []);
  }

  // ---------------------------------------------------------------------------
  // Resolving a path
  // ---------------------------------------------------------------------------

  /** The directories on the way to the current one, as records and as host nodes. */
  ghost predicate OnPath(ns: Namespace, files: FileReader, rs: seq<Rec>, hs: seq<Host>)
  {
    && |rs| == |hs| >= 1 && AllDirs(hs)
    && (forall i :: 0 <= i < |rs| ==>
          DirReadable(ns, rs[i]) && ReadableAll(ns, files, rs[i].children, rs[i].block) && MirrorsAll(rs[i].children, hs[i].children))
    && rs[0].parent == rs[0].block
    && (forall i :: 0 < i < |rs| ==> rs[i].parent == rs[i - 1].block)
  }

  /** Path resolution never asks whether it is in a directory: behind a file it goes on with the
      entries that the file's bytes make as a tree. */
  function Through(ns: Namespace, entries: Result<seq<Entry>>, rest: seq<bytes>): Result<Found>
    requires rest != []
  {
    var es :- entries;
    match Scan(es, rest[0])
    case None => Ok(Missing)
    case Some(nb) =>
      var isDir :- ns.isDir(nb);
      if |rest| > 1 then ResolveFrom(ns, nb, rest, 1) else Ok(if isDir then FoundDir(nb) else FoundFile(nb))
  }

  lemma {:induction false} ResolveRest(ns: Namespace, b: int, comps: seq<bytes>, i: nat, j: nat)
    requires i + j <= |comps|
    ensures ResolveFrom(ns, b, comps, i + j) == ResolveFrom(ns, b, comps[i..], j)
    decreases |comps| - i - j
  {
    if i + j < |comps| {
      assert comps[i..][j] == comps[i + j];
      var es := ns.entries(b);
      if es.Ok? && Scan(es.value, comps[i + j]).Some? {
        ResolveRest(ns, Scan(es.value, comps[i + j]).value, comps, i, j + 1);
      }
    }
  }

  /** Behind a file. */
  lemma ResolveThrough(ns: Namespace, b: int, comps: seq<bytes>, i: nat, data: bytes, blk: nat)
    requires i < |comps| && ns.entries(b) == AsTree(data, blk)
    ensures ResolveFrom(ns, b, comps, i) == Through(ns, AsTree(data, blk), comps[i..])
  {
    hide AsTree;
    var rest := comps[i..];
    assert rest[0] == comps[i];
    var es := AsTree(data, blk);
    if es.Ok? && Scan(es.value, rest[0]).Some? {
      ResolveRest(ns, Scan(es.value, rest[0]).value, comps, i, 1);
    }
  }

  /** The reader's answer agrees with the reference. */
  ghost predicate Agrees(ns: Namespace, files: FileReader, found: Result<Found>, want: Answer)
  {
    match want
    case NoSuch => found == Ok(Missing)
    case IsFile(data) => found.Ok? && found.value.FoundFile? && files.read(found.value.block) == Ok(data)
    case IsDirectory(cs) =>
      && found.Ok? && found.value.FoundDir?
      && (ProperNames(cs) ==> Listing(ns, found.value.block) == Ok(ListingOf(cs)))
    case ThroughFile(data, rest) => rest != [] && found == Through(ns, AsTree(data, files.blk), rest)
  }

  /** Entering a subdirectory keeps the path invariant. */
  lemma Enter(ns: Namespace, files: FileReader, rs: seq<Rec>, hs: seq<Host>, r: Rec, h: Host)
    requires OnPath(ns, files, rs, hs) && r.DirRec? && Readable(ns, files, r) && Mirrors(r, h)
    requires r.parent == rs[|rs| - 1].block
    ensures OnPath(ns, files, rs + [r], hs + [h])
  {
    hide MirrorsAll, ReadableAll, RecEntries;
  }

  /** So does going back up. */
  lemma Leave(ns: Namespace, files: FileReader, rs: seq<Rec>, hs: seq<Host>)
    requires OnPath(ns, files, rs, hs) && |rs| > 1
    ensures OnPath(ns, files, rs[..|rs| - 1], hs[..|hs| - 1])
  {
    hide MirrorsAll, ReadableAll, RecEntries, DirReadable;
  }

  /** What is known of the directory a path has reached. */
  lemma TopOfPath(ns: Namespace, files: FileReader, rs: seq<Rec>, hs: seq<Host>)
    requires OnPath(ns, files, rs, hs)
    ensures |rs| == |hs| >= 1 && AllDirs(hs)
    ensures var r, h := rs[|rs| - 1], hs[|hs| - 1];
            && r.DirRec? && DirReadable(ns, r) && MirrorsAll(r.children, h.children) && ReadableAll(ns, files, r.children, r.block)
            && r.parent == (if |rs| > 1 then rs[|rs| - 2] else r).block
  {
    hide MirrorsAll, ReadableAll, RecEntries;
  }

  /** One component of the resolution that is not the name of a child. */
  lemma ResolveDots(ns: Namespace, files: FileReader, rs: seq<Rec>, hs: seq<Host>, comps: seq<bytes>, i: nat)
    requires OnPath(ns, files, rs, hs) && i < |comps|
    ensures |rs| == |hs| >= 1 && AllDirs(hs)
    ensures var n := |rs| - 1;
            var found := ResolveFrom(ns, rs[n].block, comps, i);
            && (comps[i] == DOT ==> found == ResolveFrom(ns, rs[n].block, comps, i + 1))
            && (comps[i] == DOT_DOT ==> found == ResolveFrom(ns, (if n > 0 then rs[n - 1] else rs[n]).block, comps, i + 1))
            && (comps[i] != DOT && comps[i] != DOT_DOT && FindChild(hs[n].children, comps[i]).None? ==> found == Ok(Missing))
  {
    hide ReadableAll, MirrorsAll, RecEntries, FindChild;
    TopOfPath(ns, files, rs, hs);
    var n := |rs| - 1;
    ScanDirectory(rs[n], hs[n].children, comps[i]);
  }

  /** Path resolution agrees with the reference for every path, including `.` and `..`. */
  lemma {:induction false} ResolveAgrees(ns: Namespace, files: FileReader, rs: seq<Rec>, hs: seq<Host>, comps: seq<bytes>, i: nat)
    requires OnPath(ns, files, rs, hs) && i <= |comps|
    ensures Agrees(ns, files, ResolveFrom(ns, rs[|rs| - 1].block, comps, i), Find(hs, comps, i))
    decreases |comps| - i, 1
  {
    hide OnPath, Readable, ReadableAll, Mirrors, MirrorsAll, RecEntries, Listing, ListingOf, ProperNames, Through, AsTree, FindChild, DirReadable;
    TopOfPath(ns, files, rs, hs);
    var n := |rs| - 1;
    var r, h := rs[n], hs[n];
    if i == |comps| {
      ListIfProper(ns, files, r, h.children);
    } else {
      ResolveDots(ns, files, rs, hs, comps, i);
      if comps[i] == DOT {
        ResolveAgrees(ns, files, rs, hs, comps, i + 1);
      } else if comps[i] == DOT_DOT {
        if n > 0 {
          Leave(ns, files, rs, hs);
          ResolveAgrees(ns, files, rs[..n], hs[..n], comps, i + 1);
        } else {
          ResolveAgrees(ns, files, rs, hs, comps, i + 1);
        }
      } else if FindChild(h.children, comps[i]).Some? {
        hide Agrees;
        ResolveAgreesBelow(ns, files, rs, hs, comps, i);
      }
    }
  }

  /** The same where the component names a child. */
  lemma ResolveAgreesBelow(ns: Namespace, files: FileReader, rs: seq<Rec>, hs: seq<Host>, comps: seq<bytes>, i: nat)
    requires OnPath(ns, files, rs, hs) && i < |comps| && comps[i] != DOT && comps[i] != DOT_DOT
    requires FindChild(hs[|hs| - 1].children, comps[i]).Some?
    ensures Agrees(ns, files, ResolveFrom(ns, rs[|rs| - 1].block, comps, i), Find(hs, comps, i))
    decreases |comps| - i, 0
  {
    hide OnPath, Readable, ReadableAll, Mirrors, MirrorsAll, RecEntries, Listing, ListingOf, ProperNames, Through, AsTree, FindChild, DirReadable, ResolveFrom;
    TopOfPath(ns, files, rs, hs);
    var n := |rs| - 1;
    var r, h := rs[n], hs[n];
    ResolveChild(ns, files, rs, hs, comps, i);
    var k := FindChild(h.children, comps[i]).value;
    if h.children[k].node.HostDir? {
      hide Agrees;
      ChildFacts(ns, files, r, h.children, k);
      Enter(ns, files, rs, hs, r.children[k], h.children[k].node);
      ResolveAgrees(ns, files, rs + [r.children[k]], hs + [h.children[k].node], comps, i + 1);
    }
  }

  // Two readers of the same tree -----------------------------------------------------

  /** What is behind an answer: the bytes of a file, the listing of a directory. */
  ghost predicate SameContents(ns: Namespace, ns': Namespace, files: FileReader, files': FileReader, found: Result<Found>)
  {
    found.Ok? ==>
      match found.value
      case Missing => true
      case FoundFile(b) => files.read(b) == files'.read(b)
      case FoundDir(b) => Listing(ns, b) == Listing(ns', b)
  }

  lemma {:induction false} ListSame(ns: Namespace, ns': Namespace, es: seq<Entry>, i: nat, out: seq<Listed>)
    requires i <= |es| && forall k :: 2 <= k < |es| ==> ns.isDir(es[k].value) == ns'.isDir(es[k].value)
    requires |es| >= 2 && es[0].key == DOT && es[1].key == DOT_DOT
    ensures ListFrom(ns, es, i, out) == ListFrom(ns', es, i, out)
    decreases |es| - i
  {
    if i < |es| {
      if es[i].key == DOT || es[i].key == DOT_DOT {
        ListSame(ns, ns', es, i + 1, out);
      } else {
        var d := ns.isDir(es[i].value);
        if d.Ok? {
          ListSame(ns, ns', es, i + 1, out + [Listed(es[i].key, d.value)]);
        }
      }
    }
  }

  /** Both list a directory of the tree alike. */
  lemma DirListsSame(ns: Namespace, ns': Namespace, files: FileReader, files': FileReader, r: Rec, cs: seq<Child>)
    requires DirReadable(ns, r) && DirReadable(ns', r) && MirrorsAll(r.children, cs)
    requires ReadableAll(ns, files, r.children, r.block) && ReadableAll(ns', files', r.children, r.block)
    ensures Listing(ns, r.block) == Listing(ns', r.block)
  {
    hide Mirrors, MirrorsAll, Readable, ReadableAll;
    var es := RecEntries(r);
    MirrorsLength(r.children, cs);
    forall k | 2 <= k < |es|
      ensures ns.isDir(es[k].value) == ns'.isDir(es[k].value)
    {
      ChildFacts(ns, files, r, cs, k - 2);
      ChildFacts(ns', files', r, cs, k - 2);
    }
    ListSame(ns, ns', es, 0, []);
  }

  /** Two readers of the same tree give the same answer to every path that does not go on behind a
      file, with the same contents. */
  lemma {:induction false} ResolveSame(ns: Namespace, ns': Namespace, files: FileReader, files': FileReader,
                                       rs: seq<Rec>, hs: seq<Host>, comps: seq<bytes>, i: nat)
    requires OnPath(ns, files, rs, hs) && OnPath(ns', files', rs, hs) && i <= |comps|
    ensures !Find(hs, comps, i).ThroughFile? ==>
              var found := ResolveFrom(ns, rs[|rs| - 1].block, comps, i);
              && ResolveFrom(ns', rs[|rs| - 1].block, comps, i) == found
              && SameContents(ns, ns', files, files', found)
    decreases |comps| - i
  {
    hide OnPath, Readable, ReadableAll, Mirrors, MirrorsAll, RecEntries, Listing, Through, AsTree, FindChild, DirReadable;
    TopOfPath(ns, files, rs, hs);
    TopOfPath(ns', files', rs, hs);
    var n := |rs| - 1;
    var r, h := rs[n], hs[n];
    if i == |comps| {
      DirListsSame(ns, ns', files, files', r, h.children);
    } else {
      ResolveDots(ns, files, rs, hs, comps, i);
      ResolveDots(ns', files', rs, hs, comps, i);
      if comps[i] == DOT {
        ResolveSame(ns, ns', files, files', rs, hs, comps, i + 1);
      } else if comps[i] == DOT_DOT {
        if n > 0 {
          Leave(ns, files, rs, hs);
          Leave(ns', files', rs, hs);
          ResolveSame(ns, ns', files, files', rs[..n], hs[..n], comps, i + 1);
        } else {
          ResolveSame(ns, ns', files, files', rs, hs, comps, i + 1);
        }
      } else if FindChild(h.children, comps[i]).Some? {
        ResolveChild(ns, files, rs, hs, comps, i);
        ResolveChild(ns', files', rs, hs, comps, i);
        var k := FindChild(h.children, comps[i]).value;
        if h.children[k].node.HostDir? {
          ChildFacts(ns, files, r, h.children, k);
          ChildFacts(ns', files', r, h.children, k);
          Enter(ns, files, rs, hs, r.children[k], h.children[k].node);
          Enter(ns', files', rs, hs, r.children[k], h.children[k].node);
          ResolveSame(ns, ns', files, files', rs + [r.children[k]], hs + [h.children[k].node], comps, i + 1);
        }
      }
    }
  }

  lemma ListIfProper(ns: Namespace, files: FileReader, r: Rec, cs: seq<Child>)
    requires DirReadable(ns, r) && MirrorsAll(r.children, cs) && ReadableAll(ns, files, r.children, r.block)
    ensures ProperNames(cs) ==> Listing(ns, r.block) == Ok(ListingOf(cs))
  {
    if ProperNames(cs) {
      ListDirectory(ns, files, r, cs);
    }
  }

  lemma ChildFacts(ns: Namespace, files: FileReader, r: Rec, cs: seq<Child>, k: nat)
    requires r.DirRec? && MirrorsAll(r.children, cs) && ReadableAll(ns, files, r.children, r.block) && k < |cs|
    ensures |r.children| == |cs|
    ensures var c := r.children[k];
            && Readable(ns, files, c) && Mirrors(c, cs[k].node) && c.parent == r.block
            && c.DirRec? == cs[k].node.HostDir?
            && ns.isDir(c.block) == Ok(c.DirRec?)
            && (c.FileRec? ==> files.read(c.block) == Ok(cs[k].node.data) && ns.entries(c.block) == AsTree(cs[k].node.data, files.blk))
  {
    MirrorsAt(r.children, cs, k);
    ReadableAt(ns, files, r.children, r.block, k);
  }

  /** The step into a named child. */
  lemma ResolveChild(ns: Namespace, files: FileReader, rs: seq<Rec>, hs: seq<Host>, comps: seq<bytes>, i: nat)
    requires OnPath(ns, files, rs, hs) && i < |comps| && comps[i] != DOT && comps[i] != DOT_DOT
    requires FindChild(hs[|hs| - 1].children, comps[i]).Some?
    ensures var r, h := rs[|rs| - 1], hs[|hs| - 1];
            var k := FindChild(h.children, comps[i]).value;
            && |r.children| == |h.children|
            && (h.children[k].node.HostDir? ==>
                  ResolveFrom(ns, r.block, comps, i) == ResolveFrom(ns, r.children[k].block, comps, i + 1))
            && (h.children[k].node.HostFile? && i + 1 == |comps| ==>
                  && ResolveFrom(ns, r.block, comps, i) == Ok(FoundFile(r.children[k].block))
                  && files.read(r.children[k].block) == Ok(h.children[k].node.data))
            && (h.children[k].node.HostFile? && i + 1 < |comps| ==>
                  && ResolveFrom(ns, r.block, comps, i)
                  == Through(ns, AsTree(h.children[k].node.data, files.blk), comps[i + 1..]))
  {
    hide Readable, ReadableAll, Mirrors, MirrorsAll, RecEntries;
    var r, h := rs[|rs| - 1], hs[|hs| - 1];
    var k := FindChild(h.children, comps[i]).value;
    ScanDirectory(r, h.children, comps[i]);
    ChildFacts(ns, files, r, h.children, k);
    if h.children[k].node.HostFile? && i + 1 < |comps| {
      ResolveThrough(ns, r.children[k].block, comps, i + 1, h.children[k].node.data, files.blk);
    }
  }

  // ---------------------------------------------------------------------------
  // Stored records can be read back
  // ---------------------------------------------------------------------------

  ghost predicate ReadsImage(v: Vol, limit: nat)
  {
    ValidBlk(v.blk) && v.group == GROUPSIZE && limit <= MAX_BLOCKS
  }

  lemma EntriesInRange(r: Rec, limit: nat)
    requires r.DirRec? && limit <= MAX_BLOCKS && r.block < limit && r.parent < limit
    requires forall i :: 0 <= i < |r.children| ==> r.children[i].block < limit
    ensures ValuesInRange(RecEntries(r))
  {
    var es := RecEntries(r);
    forall i | 0 <= i < |es|
      ensures -MAX_I64 <= es[i].value < MAX_I64
    {
      if i >= 2 {
        assert es[i] == Entry(r.children[i - 2].name, r.children[i - 2].block);
      }
    }
  }

  lemma {:induction false} PlacedWithin(rs: seq<Rec>, parent: nat, lo: nat, blk: nat, i: nat)
    requires ValidBlk(blk) && PlacedAll(rs, parent, lo, blk) && i < |rs|
    ensures lo <= rs[i].block < lo + RecBlocksAll(rs, blk)
    decreases i
  {
    hide Placed;
    if i > 0 {
      PlacedWithin(rs[1..], parent, lo + RecBlocks(rs[0], blk), blk, i - 1);
    }
  }

  lemma DirValues(r: Rec, blk: nat, limit: nat)
    requires ValidBlk(blk) && r.DirRec? && Placed(r, blk) && r.block + RecBlocks(r, blk) <= limit <= MAX_BLOCKS
    requires r.parent < limit
    ensures ValuesInRange(RecEntries(r))
  {
    hide Stream, RecEntries, PageCount;
    forall i | 0 <= i < |r.children|
      ensures r.children[i].block < limit
    {
      PlacedWithin(r.children, r.block, r.stream + r.nblk, blk, i);
    }
    EntriesInRange(r, limit);
  }

  /** A directory node whose inode and stream are in the image. */
  lemma DirStoredReads(v: Vol, r: Rec, meta: Meta, limit: nat)
    requires ReadsImage(v, limit) && r.DirRec? && Placed(r, v.blk) && r.block + RecBlocks(r, v.blk) <= limit
    requires r.parent < limit && BodyStored(v.data, r, v.blk)
    requires InodeBytes(meta, v.blk) == Ok(BlockOf(v.data, r.block, v.blk)) && MetaOk(meta, v.blk)
    requires IsDirMode(meta.mode) && Tiles(meta.runs, r.stream, r.nblk)
    ensures DirReadable(NamespaceOf(v), r)
  {
    hide InodeBytes, BlockOf, Stream, MetaOk, Tiles, DirEntries, IsDir, RecEntries, PageCount, IsDirMode, RecBlocks;
    DirValues(r, v.blk, limit);
    DirectoryReads(BTREE_STRING, v, r.block, meta, RecEntries(r), r.stream);
    StreamReads(v, r.block, meta, r.stream, r.nblk);
  }

  lemma NodeModes(r: Rec, m: Manifest, blk: nat)
    ensures IsDirMode(NodeMeta(r, m, blk).mode) == r.DirRec?
    ensures r.FileRec? ==> NodeMeta(r, m, blk).size == |r.data|
    ensures NodeMeta(r, m, blk).attrs == NodeAttrs(r, m)
  {
    ModesAreKinds();
  }

  /** What the second pass stored, `befs_get` reads back, over the whole subtree. */
  lemma {:induction false} StoredReadable(v: Vol, r: Rec, m: Manifest, limit: nat)
    requires ReadsImage(v, limit) && Placed(r, v.blk) && r.block + RecBlocks(r, v.blk) <= limit && r.parent < limit
    requires Stored(v.data, r, m, v.blk) && AttrsFitAll(r, m, v.blk)
    ensures Readable(NamespaceOf(v), FilesOf(v), r)
    decreases r, 1
  {
    hide InodeBytes, BlockOf, Stream, MetaOk, Tiles, DirEntries, IsDir, RecEntries, PageCount, IsDirMode, NodeMeta, NodeAttrs, FileBytes, Need, FileBlock, SplitRuns, GetEntries, Padded;
    var meta := NodeMeta(r, m, v.blk);
    NodeModes(r, m, v.blk);
    RecMetaOk(r, m, v.blk, limit);
    if r.DirRec? {
      DirStoredReads(v, r, meta, limit);
      StoredAllReadable(v, r.children, r.block, r.stream + r.nblk, m, limit);
    } else {
      FileReads(v, r.block, meta, r.data, r.block + 1);
      FileEntries(v, r.block, meta, r.data, r.block + 1);
      StreamReads(v, r.block, meta, r.block + 1, Need(r.data, v.blk));
    }
  }

  lemma {:induction false} StoredAllReadable(v: Vol, rs: seq<Rec>, parent: nat, lo: nat, m: Manifest, limit: nat)
    requires ReadsImage(v, limit) && PlacedAll(rs, parent, lo, v.blk) && lo + RecBlocksAll(rs, v.blk) <= limit
    requires parent < limit && StoredAll(v.data, rs, m, v.blk) && AttrsFitEach(rs, m, v.blk)
    ensures ReadableAll(NamespaceOf(v), FilesOf(v), rs, parent)
    decreases rs, 0
  {
    hide Readable, Placed, Stored, AttrsFitAll, NamespaceOf, FilesOf;
    if rs != [] {
      StoredReadable(v, rs[0], m, limit);
      StoredAllReadable(v, rs[1..], parent, lo + RecBlocks(rs[0], v.blk), m, limit);
    }
  }

  // ---------------------------------------------------------------------------
  // The volume root
  // ---------------------------------------------------------------------------

  const B_UINT64_TYPE: nat := 0x554C4C47
  /** "be:volume_id" */
  const VOLUME_ID: bytes := [98, 101, 58, 118, 111, 108, 117, 109, 101, 95, 105, 100]

  function RootAttrs(m: Manifest): seq<Attr>
  {
    [Attr(B_UINT64_TYPE, VOLUME_ID, Encode(0x4D39_3342_4546_53, 8))] + ManifestAttrs(m, [])
  }

  /** The volume root's inode is written last, always with a two-block stream. */
  function RootMeta(r: Rec, m: Manifest, blk: nat): Meta
    requires r.DirRec?
  {
    Meta(r.block, DIR_MODE, r.block, RootAttrs(m), [Run(r.stream, 2)], 2 * blk, 0)
  }

  /** The image holds the staged tree. */
  ghost predicate RootStored(buf: bytes, r: Rec, m: Manifest, blk: nat)
    requires ValidBlk(blk) && r.DirRec?
  {
    && InodeBytes(RootMeta(r, m, blk), blk) == Ok(BlockOf(buf, r.block, blk))
    && BodyStored(buf, r, blk)
    && StoredAll(buf, r.children, m, blk)
  }

  lemma RootMetaOk(r: Rec, m: Manifest, blk: nat)
    requires ValidBlk(blk) && r.DirRec? && AttrsFit(RootAttrs(m), blk) && r.stream < MAX_BLOCKS
    ensures MetaOk(RootMeta(r, m, blk), blk) && IsDirMode(RootMeta(r, m, blk).mode)
    ensures Tiles(RootMeta(r, m, blk).runs, r.stream, 2)
  {
    hide RootAttrs;
    ModesAreKinds();
    assert [Run(r.stream, 2)][1..] == [];
  }

  /** Everything a caller has to know about an image to read the tree from it. */
  ghost predicate Staged(v: Vol, r: Rec, m: Manifest, limit: nat)
  {
    && ReadsImage(v, limit) && r.DirRec? && v.root == r.block && r.parent == r.block
    && Placed(r, v.blk) && r.block + RecBlocks(r, v.blk) <= limit
    && RootStored(v.data, r, m, v.blk)
    && AttrsFit(RootAttrs(m), v.blk) && AttrsFitEach(r.children, m, v.blk)
  }

  lemma RootReadable(v: Vol, r: Rec, m: Manifest, limit: nat)
    requires Staged(v, r, m, limit) && r.nblk == 2
    ensures DirReadable(NamespaceOf(v), r)
    ensures ReadableAll(NamespaceOf(v), FilesOf(v), r.children, r.block)
  {
    hide InodeBytes, BlockOf, Stream, MetaOk, Tiles, RecEntries, PageCount, IsDirMode, RootMeta, RootAttrs, AttrsFit, DirReadable, ReadableAll, StoredAll;
    RootMetaOk(r, m, v.blk);
    DirStoredReads(v, r, RootMeta(r, m, v.blk), limit);
    StoredAllReadable(v, r.children, r.block, r.stream + r.nblk, m, limit);
  }

  /** End to end: on an image holding a staged tree whose root directory fits one leaf, every
      path resolves to what the host tree has there. A file gives exactly its bytes, a
      directory lists exactly its children, an absent name is reported missing, and a path that
      goes on behind a file gives what the file's bytes make as a tree. */
  lemma EveryPathReads(v: Vol, r: Rec, h: Host, m: Manifest, limit: nat, comps: seq<bytes>)
    requires Staged(v, r, m, limit) && r.nblk == 2
    requires h.HostDir? && MirrorsAll(r.children, h.children)
    ensures Agrees(NamespaceOf(v), FilesOf(v), ResolveFrom(NamespaceOf(v), v.root, comps, 0), Find([h], comps, 0))
  {
    hide Readable, ReadableAll, MirrorsAll, Placed, RootStored, RecEntries, NamespaceOf, FilesOf, Agrees, AttrsFit, RootAttrs, AttrsFitEach;
    RootReadable(v, r, m, limit);
    assert OnPath(NamespaceOf(v), FilesOf(v), [r], [h]);
    ResolveAgrees(NamespaceOf(v), FilesOf(v), [r], [h], comps, 0);
  }

  // ---------------------------------------------------------------------------
  // Paths that go on behind a file
  // ---------------------------------------------------------------------------

  /** A file that does not start with the tree magic is refused as a directory; a caller can see
      that from its first four bytes. */
  lemma PlainFileRefused(data: bytes, blk: nat)
    requires blk >= 4 && U32(data, 0) != Ok(BTREE_MAGIC)
    ensures AsTree(data, blk) == Err(if data == [] then StructError else BadMagic)
  {
    hide GetDescend, GetChain, Need, Decode;
    var p := Padded(data, blk);
    NeedBounds(data, blk);
    if data == [] {
      assert |p| == 0 by { NoNeed(blk); }
    } else {
      assert |p| >= blk by { SomeNeed(data, blk); }
      if |data| >= 4 {
        assert p[0..4] == data[0..4];
      } else {
        assert p[3] == 0;
        TopByteZero(p[0..4]);
      }
    }
  }

  lemma NoNeed(blk: nat)
    requires blk > 0
    ensures Need([], blk) == 0 && Need([], blk) * blk == 0
  {
  }

  lemma SomeNeed(data: bytes, blk: nat)
    requires blk > 0 && data != []
    ensures Need(data, blk) * blk >= blk
  {
    hide Need;
    NeedBounds(data, blk);
    assert Need(data, blk) >= 1;
    MulLe(1, Need(data, blk), blk);
  }

  lemma TopByteZero(w: bytes)
    requires |w| == 4 && w[3] == 0
    ensures Decode(w) != BTREE_MAGIC
  {
    var w1, w2, w3 := w[1..], w[2..], w[3..];
    assert w1[1..] == w2 && w2[1..] == w3 && w3[1..] == [];
    assert Decode(w3) == 0;
    assert Decode(w2) == w[2];
    assert Decode(w1) == w[1] + 256 * Decode(w2);
    assert Decode(w) == w[0] + 256 * Decode(w1);
  }

  /** So a path behind such a file is an error. */
  lemma BehindPlainFile(ns: Namespace, files: FileReader, found: Result<Found>, data: bytes, rest: seq<bytes>)
    requires Agrees(ns, files, found, ThroughFile(data, rest)) && files.blk >= 4 && U32(data, 0) != Ok(BTREE_MAGIC)
    ensures found.Err?
  {
    hide AsTree;
    PlainFileRefused(data, files.blk);
  }

  /** Exactly: every path behind a file is an error if and only if its bytes do not parse as a
      tree. */
  lemma BehindFileIff(ns: Namespace, data: bytes, blk: nat)
    ensures (forall rest :: rest != [] ==> Through(ns, AsTree(data, blk), rest).Err?) <==> AsTree(data, blk).Err?
  {
    hide AsTree, KeyData;
    if AsTree(data, blk).Ok? {
      var es := AsTree(data, blk).value;
      var other := Zeros(|KeyData(es)| + 1);
      forall i | 0 <= i < |es|
        ensures es[i].key != other
      {
        KeySlice(es, i);
      }
      ScanMisses(es, other);
      assert Through(ns, AsTree(data, blk), [other]) == Ok(Missing);
    }
  }

  /** A path is found. */
  predicate Resolves(found: Result<Found>)
  {
    found.Ok? && !found.value.Missing?
  }

  /** An entry of this name leads to an inode. */
  predicate Leads(ns: Namespace, es: seq<Entry>, key: bytes)
  {
    Scan(es, key).Some? && ns.isDir(Scan(es, key).value).Ok?
  }

  /** A path behind a file is found, where the host tree has none, exactly when the file's bytes
      parse as a tree with an entry that leads to an inode. */
  lemma BehindFileFoundIff(ns: Namespace, data: bytes, blk: nat)
    ensures (exists rest :: rest != [] && Resolves(Through(ns, AsTree(data, blk), rest)))
       <==> AsTree(data, blk).Ok? && exists key :: Leads(ns, AsTree(data, blk).value, key)
  {
    hide AsTree;
    if rest :| rest != [] && Resolves(Through(ns, AsTree(data, blk), rest)) {
      assert Leads(ns, AsTree(data, blk).value, rest[0]);
    }
    if AsTree(data, blk).Ok? && exists key :: Leads(ns, AsTree(data, blk).value, key) {
      var key :| Leads(ns, AsTree(data, blk).value, key);
      assert Resolves(Through(ns, AsTree(data, blk), [key]));
    }
  }

  /** A file that holds a tree is entered like a directory. */
  lemma TreeFileEntered(es: seq<Entry>, blk: nat)
    requires ValidBlk(blk) && Stream(BTREE_STRING, es, blk).Ok? && ValuesInRange(es)
    ensures AsTree(Stream(BTREE_STRING, es, blk).value, blk) == Ok(es)
  {
    hide GetEntries, Stream, PageCount, Need;
    var s := Stream(BTREE_STRING, es, blk).value;
    StreamLength(BTREE_STRING, es, blk);
    NeedBounds(s, blk);
    WholeBlocks(|s|, Need(s, blk), PageCount(es, blk), blk);
    assert Padded(s, blk) == s;
    GetInvertsStream(BTREE_STRING, es, blk);
  }

  lemma WholeBlocks(len: nat, need: nat, n: nat, blk: nat)
    requires blk > 0 && len == blk * n && len <= need * blk < len + blk
    ensures need * blk == len
  {
    if need > n {
      MulLe(n + 1, need, blk);
    }
    if need < n {
      MulLe(need + 1, n, blk);
    }
  }

  /** A path of the volume that the host tree does not have: in a file that holds a one-entry tree,
      the entry's name resolves, here back to the volume root. */
  lemma PathThroughTreeFile(v: Vol, r: Rec, h: Host, m: Manifest, limit: nat, name: bytes, key: bytes)
    requires Staged(v, r, m, limit) && r.nblk == 2 && h.HostDir? && MirrorsAll(r.children, h.children)
    requires name != DOT && name != DOT_DOT && Fits([Entry(key, r.block)], v.blk)
    requires FindChild(h.children, name).Some? && Stream(BTREE_STRING, [Entry(key, r.block)], v.blk).Ok?
    requires h.children[FindChild(h.children, name).value].node == HostFile(Stream(BTREE_STRING, [Entry(key, r.block)], v.blk).value)
    ensures ResolveFrom(NamespaceOf(v), v.root, [name, key], 0) == Ok(FoundDir(r.block))
  {
    hide Staged, Stream, AsTree, NamespaceOf, MirrorsAll, Fits, FilesOf, ReadableAll;
    var es, comps := [Entry(key, r.block)], [name, key];
    EveryPathReads(v, r, h, m, limit, comps);
    RootReadable(v, r, m, limit);
    RootBlock(v, r, m, limit);
    assert Find([h], comps, 0) == ThroughFile(Stream(BTREE_STRING, es, v.blk).value, [key]) by {
      assert comps[1..] == [key];
    }
    TreeFileEntered(es, v.blk);
  }

  lemma RootBlock(v: Vol, r: Rec, m: Manifest, limit: nat)
    requires Staged(v, r, m, limit)
    ensures ValidBlk(v.blk) && ValuesInRange([Entry([], r.block)]) && r.block < MAX_BLOCKS && FilesOf(v).blk == v.blk
  {
  }

  // ---------------------------------------------------------------------------
  // A root directory that needs more than one leaf
  // ---------------------------------------------------------------------------

  /** A directory stream has two blocks exactly when its entries fit one node. */
  lemma TwoPagesIff(es: seq<Entry>, blk: nat)
    requires ValidBlk(blk) && Stream(BTREE_STRING, es, blk).Ok?
    ensures PageCount(es, blk) == 2 <==> Fits(es, blk)
  {
    if Fits(es, blk) {
      OneChunk(es, blk);
    }
    if PageCount(es, blk) == 2 {
      ShallowPages(BTREE_STRING, es, blk);
    }
  }

  /** The first two pages of a depth-2 stream by themselves lead the reader off the end. */
  lemma TruncatedStream(pages: seq<bytes>, chunks: seq<seq<Entry>>, blk: nat)
    requires ValidBlk(blk) && DeepPages(pages, BTREE_STRING, chunks, blk)
    ensures GetEntries(Flatten([pages[0], pages[1]]), blk) == Err(StructError)
  {
    hide TreeHeader, Node, GetStep, LeafPage, Separators, GetChain;
    var two := [pages[0], pages[1]];
    var stream := Flatten(two);
    HeaderReads(stream, 2, BTREE_STRING, LeafOffset(|chunks|, blk), blk);
    PageAt(two, blk, 1);
    assert 1 * blk == blk;
    RootPageReads(pages, BTREE_STRING, chunks, blk);
    FewLeaves(chunks, blk);
    OffsetBounds(|chunks| - 1, |chunks|, blk);
    UniformLength(two, blk);
    var read := StepReader(stream, blk);
    assert read(blk) == Ok(ToChild(LeafOffset(0, blk))) by {
      FirstSeparator(chunks, blk);
    }
    assert Page(stream, LeafOffset(0, blk), blk) == [];
    EmptyPage();
    assert GetDescend(read, LeafOffset(0, blk), GET_DEPTH_CAP - 1) == Err(StructError);
    assert GetDescend(read, blk, GET_DEPTH_CAP) == Err(StructError);
  }

  lemma EmptyPage()
    ensures GetStep([]) == Err(StructError) && DumpNode([]) == Err(StructError)
  {
  }

  /** `befs_dump` fails on them too. */
  lemma TruncatedDump(pages: seq<bytes>, chunks: seq<seq<Entry>>, blk: nat)
    requires ValidBlk(blk) && DeepPages(pages, BTREE_STRING, chunks, blk)
    ensures DumpEntries(Flatten([pages[0], pages[1]])) == Err(StructError)
  {
    hide TreeHeader, Node, DumpNode, LeafPage, Separators, DumpChain;
    var two := [pages[0], pages[1]];
    var stream := Flatten(two);
    HeaderReads(stream, 2, BTREE_STRING, LeafOffset(|chunks|, blk), blk);
    PageAt(two, blk, 1);
    assert 1 * blk == blk;
    RootPageReads(pages, BTREE_STRING, chunks, blk);
    FewLeaves(chunks, blk);
    OffsetBounds(|chunks| - 1, |chunks|, blk);
    UniformLength(two, blk);
    FirstSeparator(chunks, blk);
    var read := NodeReader(stream, blk);
    assert read(blk).value.entries == Separators(chunks, blk) && read(blk).value.overflow != NULL_LINK;
    assert Page(stream, LeafOffset(0, blk), blk) == [];
    EmptyPage();
    assert DumpDescend(read, LeafOffset(0, blk), 1) == Err(StructError);
    assert DumpDescend(read, blk, 2) == Err(StructError);
  }

  lemma StreamBlock(pages: seq<bytes>, blk: nat, k: nat)
    requires Uniform(pages, blk) && k < |pages|
    ensures BlockOf(Flatten(pages), k, blk) == pages[k]
  {
    PageAt(pages, blk, k);
    NextBlock(k, blk);
  }

  /** Since the root inode is always rewritten with a two-block stream, the root directory can
      be read exactly when its entries fit one leaf; otherwise every nonempty path fails. */
  lemma RootReadsIff(v: Vol, r: Rec, m: Manifest, limit: nat, comps: seq<bytes>)
    requires Staged(v, r, m, limit) && comps != []
    ensures DirEntries(v, v.root) == (if Fits(RecEntries(r), v.blk) then Ok(RecEntries(r)) else Err(StructError))
    ensures !Fits(RecEntries(r), v.blk) ==> ResolveFrom(NamespaceOf(v), v.root, comps, 0) == Err(StructError)
  {
    hide InodeBytes, BlockOf, Stream, MetaOk, Tiles, RecEntries, PageCount, RootMeta, RootAttrs, AttrsFit, DirEntries, ReadableAll, StoredAll, AttrsFitEach, Fits;
    TwoPagesIff(RecEntries(r), v.blk);
    if r.nblk == 2 {
      RootReadable(v, r, m, limit);
    } else {
      LargeRootUnreadable(v, r, m, limit);
    }
  }

  /** The two blocks that the rewritten root inode leads to. */
  lemma RootFront(v: Vol, r: Rec, m: Manifest, limit: nat, pages: seq<bytes>)
    requires Staged(v, r, m, limit) && Pages(BTREE_STRING, RecEntries(r), v.blk) == Ok(pages) && |pages| >= 2 && r.nblk >= 2
    ensures BlocksOf(v.data, r.stream, 2, v.blk) == [pages[0], pages[1]]
  {
    hide InodeBytes, BlockOf, RecEntries, RootMeta, RootAttrs, AttrsFit, StoredAll, Pages, PlacedAll, AttrsFitEach, RecBlocksAll, Flatten;
    StreamBlock(pages, v.blk, 0);
    StreamBlock(pages, v.blk, 1);
    assert BlockOf(v.data, r.stream + 0, v.blk) == pages[0] && BlockOf(v.data, r.stream + 1, v.blk) == pages[1];
  }

  lemma LargeRootUnreadable(v: Vol, r: Rec, m: Manifest, limit: nat)
    requires Staged(v, r, m, limit) && r.nblk != 2
    ensures DirEntries(v, r.block) == Err(StructError)
  {
    hide InodeBytes, BlockOf, BlocksOf, MetaOk, Tiles, RecEntries, RootMeta, RootAttrs, AttrsFit, StoredAll, GetEntries, StreamBytes, GetInode, DeepPages, NodeBytes, Flatten, PlacedAll, AttrsFitEach, RecBlocksAll;
    var es, blk := RecEntries(r), v.blk;
    RootMetaOk(r, m, blk);
    StreamReads(v, r.block, RootMeta(r, m, blk), r.stream, 2);
    StreamLength(BTREE_STRING, es, blk);
    var pages, chunks := Pages(BTREE_STRING, es, blk).value, Chunks(es, blk).value;
    StreamIsDeep(BTREE_STRING, es, blk);
    RootFront(v, r, m, limit, pages);
    TruncatedStream(pages, chunks, blk);
  }
}
