/**
 Index against scan: descending a built tree by the separator convention of `btree_node`
 ("child v_i covers [k_{i-1}, k_i), the overflow link the rest") finds a key exactly when the
 linear scan of `dir_entry` does.
 */
module TreeSearch {
  import opened Bytes
  import opened BPlusTree
  import opened TreeReaders
  import opened RoundTrip

  // ---------------------------------------------------------------------------
  // The order of keys
  // ---------------------------------------------------------------------------

  /** Bytewise lexicographic order. */
  predicate Less(a: bytes, b: bytes)
  {
    b != [] && (a == [] || a[0] < b[0] || (a[0] == b[0] && Less(a[1..], b[1..])))
  }

  lemma {:induction false} LessTransitive(a: bytes, b: bytes, c: bytes)
    requires Less(a, b) && Less(b, c)
    ensures Less(a, c)
  {
    if a != [] && a[0] == b[0] && b[0] == c[0] {
      LessTransitive(a[1..], b[1..], c[1..]);
    }
  }

  lemma {:induction false} LessIrreflexive(a: bytes)
    ensures !Less(a, a)
  {
    if a != [] {
      LessIrreflexive(a[1..]);
    }
  }

  lemma {:induction false} LessTotal(a: bytes, b: bytes)
    ensures Less(a, b) || a == b || Less(b, a)
  {
    if a != [] && b != [] && a[0] == b[0] {
      LessTotal(a[1..], b[1..]);
      assert a == [a[0]] + a[1..] && b == [b[0]] + b[1..];
    }
  }

  ghost predicate Sorted(es: seq<Entry>)
  {
    forall i, j :: 0 <= i < j < |es| ==> Less(es[i].key, es[j].key)
  }

  // ---------------------------------------------------------------------------
  // Scan and descent
  // ---------------------------------------------------------------------------

  /** `dir_entry`: the value of the first entry with this key. */
  function Scan(es: seq<Entry>, key: bytes): Option<int>
  {
    if es == [] then None
    else if es[0].key == key then Some(es[0].value)
    else Scan(es[1..], key)
  }

  method DirEntry(es: seq<Entry>, key: bytes) returns (r: Option<int>)
    ensures r == Scan(es, key)
    ensures r.None? <==> forall e :: e in es ==> e.key != key
  {
    var i := 0;
    assert es[0..] == es;
    while i < |es|
      invariant 0 <= i <= |es|
      invariant Scan(es, key) == Scan(es[i..], key)
      invariant forall j :: 0 <= j < i ==> es[j].key != key
    {
      if es[i].key == key {
        assert es[i] in es;
        return Some(es[i].value);
      }
      assert es[i..][1..] == es[i + 1..];
      i := i + 1;
    }
    return None;
  }

  /** The child of an internal node that covers `key`, looking from separator `i` on. */
  function ChildFor(seps: seq<Entry>, overflow: int, key: bytes, i: nat): int
    requires i <= |seps|
    decreases |seps| - i
  {
    if i == |seps| then overflow
    else if Less(key, seps[i].key) then seps[i].value
    else ChildFor(seps, overflow, key, i + 1)
  }

  /** Look up a key by one descent and a scan of a single leaf. */
  function Lookup(read: int -> Result<ParsedNode>, root: int, key: bytes): Result<Option<int>>
  {
    var nd :- read(root);
    if nd.overflow == NULL_LINK then Ok(Scan(nd.entries, key))
    else
      var leaf :- read(ChildFor(nd.entries, nd.overflow, key, 0));
      Ok(Scan(leaf.entries, key))
  }

  // ---------------------------------------------------------------------------
  // The chunk that covers a key
  // ---------------------------------------------------------------------------

  ghost function CoveringChunk(chunks: seq<seq<Entry>>, key: bytes): (i: nat)
    requires |chunks| >= 1 && NoEmpty(chunks)
    ensures i < |chunks|
    decreases |chunks|
  {
    if |chunks| == 1 || Less(key, chunks[1][0].key) then 0
    else 1 + CoveringChunk(chunks[1..], key)
  }

  lemma {:induction false} ScanAppend(a: seq<Entry>, b: seq<Entry>, key: bytes)
    ensures Scan(a + b, key) == if Scan(a, key).Some? then Scan(a, key) else Scan(b, key)
  {
    if a == [] {
      assert a + b == b;
    } else {
      ScanAppend(a[1..], b, key);
      assert (a + b)[1..] == a[1..] + b;
    }
  }

  lemma {:induction false} ScanMisses(es: seq<Entry>, key: bytes)
    requires forall i :: 0 <= i < |es| ==> es[i].key != key
    ensures Scan(es, key) == None
  {
    if es != [] {
      ScanMisses(es[1..], key);
    }
  }

  /** In a sorted list, nothing from a key above `key` on matches it. */
  lemma MissesAbove(es: seq<Entry>, key: bytes)
    requires es != [] && Sorted(es) && Less(key, es[0].key)
    ensures Scan(es, key) == None
  {
    forall i | 0 <= i < |es|
      ensures es[i].key != key
    {
      if i > 0 {
        LessTransitive(key, es[0].key, es[i].key);
      }
      LessIrreflexive(key);
    }
    ScanMisses(es, key);
  }

  /** In a sorted list, nothing before an entry at or below `key` matches it. */
  lemma MissesBelow(a: seq<Entry>, e: Entry, key: bytes)
    requires forall i :: 0 <= i < |a| ==> Less(a[i].key, e.key)
    requires !Less(key, e.key)
    ensures Scan(a, key) == None
  {
    forall i | 0 <= i < |a|
      ensures a[i].key != key
    {
    }
    ScanMisses(a, key);
  }

  lemma SortedSplit(a: seq<Entry>, b: seq<Entry>)
    requires Sorted(a + b)
    ensures Sorted(b)
    ensures b != [] ==> forall i :: 0 <= i < |a| ==> Less(a[i].key, b[0].key)
  {
    var s := a + b;
    forall i, j | 0 <= i < j < |b|
      ensures Less(b[i].key, b[j].key)
    {
      assert b[i] == s[|a| + i] && b[j] == s[|a| + j];
    }
    if b != [] {
      forall i | 0 <= i < |a|
        ensures Less(a[i].key, b[0].key)
      {
        assert a[i] == s[i] && b[0] == s[|a|];
      }
    }
  }

  /** Scanning the covering chunk alone answers for the whole sorted list. */
  lemma {:induction false} CoveringChunkDecides(chunks: seq<seq<Entry>>, key: bytes)
    requires |chunks| >= 1 && NoEmpty(chunks) && Sorted(Flatten(chunks))
    ensures Scan(Flatten(chunks), key) == Scan(chunks[CoveringChunk(chunks, key)], key)
    decreases |chunks|
  {
    var c, rest := chunks[0], Flatten(chunks[1..]);
    SortedSplit(c, rest);
    ScanAppend(c, rest, key);
    if |chunks| > 1 {
      var first := chunks[1][0];
      assert Flatten(chunks[1..]) == chunks[1] + Flatten(chunks[1..][1..]);
      assert rest[0] == first;
      if Less(key, first.key) {
        MissesAbove(rest, key);
      } else {
        MissesBelow(c, first, key);
        CoveringChunkDecides(chunks[1..], key);
      }
    }
  }

  /** The root's separators lead to the covering chunk. */
  lemma {:induction false} SeparatorsLead(chunks: seq<seq<Entry>>, blk: nat, key: bytes, i: nat)
    requires |chunks| >= 1 && NoEmpty(chunks) && i < |chunks|
    ensures ChildFor(Separators(chunks, blk), LeafOffset(|chunks| - 1, blk), key, i)
         == LeafOffset(i + CoveringChunk(chunks[i..], key), blk)
    decreases |chunks| - i
  {
    var rest := chunks[i..];
    if i + 1 < |chunks| {
      assert rest[1] == chunks[i + 1] && rest[1..] == chunks[i + 1..];
      assert Separators(chunks, blk)[i] == Entry(chunks[i + 1][0].key, LeafOffset(i, blk));
      SeparatorsLead(chunks, blk, key, i + 1);
    }
  }

  lemma LookupDeep(read: int -> Result<ParsedNode>, root: int, chunks: seq<seq<Entry>>, blk: nat, key: bytes)
    requires |chunks| >= 2 && NoEmpty(chunks)
    requires read(root).Ok? && read(root).value.entries == Separators(chunks, blk)
    requires read(root).value.overflow == LeafOffset(|chunks| - 1, blk) != NULL_LINK
    requires forall k :: 0 <= k < |chunks| ==>
               read(LeafOffset(k, blk)).Ok? && read(LeafOffset(k, blk)).value.entries == chunks[k]
    ensures Lookup(read, root, key) == Ok(Scan(chunks[CoveringChunk(chunks, key)], key))
  {
    assert chunks[0..] == chunks;
    SeparatorsLead(chunks, blk, key, 0);
  }

  /** Search equals scan on every accepted, strictly sorted list, for every key. */
  lemma LookupIsScan(dataType: nat, es: seq<Entry>, blk: nat, key: bytes)
    requires ValidBlk(blk) && Stream(dataType, es, blk).Ok? && ValuesInRange(es) && Sorted(es)
    ensures Lookup(NodeReader(Stream(dataType, es, blk).value, blk), blk, key) == Ok(Scan(es, key))
  {
    var chunks := Chunks(es, blk).value;
    LookupFinds(dataType, es, blk, key);
    if |chunks| > 1 {
      GreedyFlatten([], es, blk);
      assert [] + es == es;
      CoveringChunkDecides(chunks, key);
    }
  }

  /** On any accepted list, search is the scan of the covering chunk. */
  lemma LookupFinds(dataType: nat, es: seq<Entry>, blk: nat, key: bytes)
    requires ValidBlk(blk) && Stream(dataType, es, blk).Ok? && ValuesInRange(es)
    ensures Chunks(es, blk).Ok?
    ensures var chunks := Chunks(es, blk).value;
            Lookup(NodeReader(Stream(dataType, es, blk).value, blk), blk, key)
            == Ok(Scan(if |chunks| == 1 then es else chunks[CoveringChunk(chunks, key)], key))
  {
    var chunks, pages, stream := Chunks(es, blk).value, Pages(dataType, es, blk).value, Stream(dataType, es, blk).value;
    var read := NodeReader(stream, blk);
    if |chunks| == 1 {
      ShallowPages(dataType, es, blk);
      NodeReads(pages[1], es, NULL_LINK, NULL_LINK, NULL_LINK, blk);
      assert Page(stream, blk, blk) == pages[1] by {
        PageAt(pages, blk, 1);
        assert 1 * blk == blk;
      }
      assert read(blk) == Ok(ParsedNode(NULL_LINK, NULL_LINK, NULL_LINK, es));
    } else {
      GreedyFlatten([], es, blk);
      assert [] + es == es;
      StreamIsDeep(dataType, es, blk);
      DeepStreamView(pages, dataType, chunks, blk);
      DeepNodes(stream, chunks, blk);
      LookupDeep(read, blk, chunks, blk, key);
    }
  }

  lemma DeepNodes(stream: bytes, chunks: seq<seq<Entry>>, blk: nat)
    requires ValidBlk(blk) && DeepView(stream, chunks, blk)
    ensures var read := NodeReader(stream, blk);
            && read(blk).Ok? && read(blk).value.entries == Separators(chunks, blk)
            && read(blk).value.overflow == LeafOffset(|chunks| - 1, blk) != NULL_LINK
            && forall k :: 0 <= k < |chunks| ==>
                 read(LeafOffset(k, blk)).Ok? && read(LeafOffset(k, blk)).value.entries == chunks[k]
  {
    OffsetBounds(|chunks| - 1, |chunks|, blk);
    var read := NodeReader(stream, blk);
    forall k | 0 <= k < |chunks|
      ensures read(LeafOffset(k, blk)).Ok? && read(LeafOffset(k, blk)).value.entries == chunks[k]
    {
      assert LeafReads(Page(stream, LeafOffset(k, blk), blk), chunks, k, blk);
    }
  }

  // ---------------------------------------------------------------------------
  // Which of the writer's own lists are sorted
  // ---------------------------------------------------------------------------

  const DOT: bytes := [46]
  const DOT_DOT: bytes := [46, 46]

  /** The keys of a directory, `.` and `..` first, are in order exactly when its names are in
      order and the first of them sorts above `..`. */
  lemma DirectorySorted(self: int, parent: int, es: seq<Entry>)
    ensures Sorted([Entry(DOT, self), Entry(DOT_DOT, parent)] + es) <==>
              Sorted(es) && (es == [] || Less(DOT_DOT, es[0].key))
  {
    var head := [Entry(DOT, self), Entry(DOT_DOT, parent)];
    var all := head + es;
    DotOrder();
    if Sorted(all) {
      SortedSplit(head, es);
      assert es != [] ==> Less(head[1].key, es[0].key);
    }
    if Sorted(es) && (es == [] || Less(DOT_DOT, es[0].key)) {
      forall i, j | 0 <= i < j < |all|
        ensures Less(all[i].key, all[j].key)
      {
        if 2 <= i {
          assert all[i] == es[i - 2] && all[j] == es[j - 2];
        } else if 2 <= j {
          assert all[j] == es[j - 2];
          if j > 2 {
            LessTransitive(DOT_DOT, es[0].key, es[j - 2].key);
          }
          if i == 0 {
            LessTransitive(DOT, DOT_DOT, es[j - 2].key);
          }
        }
      }
    }
  }

  /** A name that starts with a dash sorts below both dots, so its directory is not sorted. */
  lemma DashNameUnsorted(self: int, parent: int, rest: bytes, v: int)
    ensures !Sorted([Entry(DOT, self), Entry(DOT_DOT, parent)] + [Entry([45] + rest, v)])
  {
    var e := Entry([45] + rest, v);
    assert !Less(DOT_DOT, e.key);
    DirectorySorted(self, parent, [e]);
  }

  /** The list of a directory: `.` and `..`, then its names. */
  function DirectoryList(self: int, parent: int, es: seq<Entry>): seq<Entry>
  {
    [Entry(DOT, self), Entry(DOT_DOT, parent)] + es
  }

  lemma DotsFit(self: int, parent: int, blk: nat)
    requires ValidBlk(blk)
    ensures Fits([Entry(DOT, self), Entry(DOT_DOT, parent)], blk)
  {
    var a, b := Entry(DOT, self), Entry(DOT_DOT, parent);
    KeyDataOne(a);
    BudgetSnoc([a], b);
    assert [a] + [b] == [a, b];
  }

  /** The first chunk of a directory holds both dots; the others hold names only, in order. */
  lemma DirectoryChunks(self: int, parent: int, es: seq<Entry>, blk: nat) returns (j: nat)
    requires ValidBlk(blk) && Stream(BTREE_STRING, DirectoryList(self, parent, es), blk).Ok?
    requires |Chunks(DirectoryList(self, parent, es), blk).value| > 1
    ensures Chunks(DirectoryList(self, parent, es), blk).Ok?
    ensures var all, chunks := DirectoryList(self, parent, es), Chunks(DirectoryList(self, parent, es), blk).value;
            && 2 <= j < |all| && chunks[0] == all[..j] && NoEmpty(chunks)
            && Flatten(chunks[1..]) == es[j - 2..] && chunks[1][0] == es[j - 2]
            && Flatten(chunks) == all
  {
    hide Fits, Greedy;
    var all := DirectoryList(self, parent, es);
    var chunks := Chunks(all, blk).value;
    StreamAccepts(BTREE_STRING, all, blk);
    j := GreedyFirst([], all, blk);
    assert [] + all[..j] == all[..j];
    if j == 1 {
      assert [] + all[..2] == [Entry(DOT, self), Entry(DOT_DOT, parent)];
      DotsFit(self, parent, blk);
    }
    GreedyFlatten([], all, blk);
    assert [] + all == all;
    assert chunks[0] == all[..j];
    assert Flatten(chunks) == chunks[0] + Flatten(chunks[1..]);
    assert Flatten(chunks[1..]) == all[j..];
    assert all[j..] == es[j - 2..];
    assert Flatten(chunks[1..]) == chunks[1] + Flatten(chunks[1..][1..]);
  }

  lemma {:induction false} InFlatten(cs: seq<seq<Entry>>, k: nat, i: nat)
    requires k < |cs| && i < |cs[k]|
    ensures cs[k][i] in Flatten(cs)
    decreases k
  {
    if k > 0 {
      InFlatten(cs[1..], k - 1, i);
    }
  }

  /** For the writer's own directories, whose names are in order, search finds for every key what the
      scan finds exactly when there is one leaf or the second leaf starts above `..`. */
  lemma DirectorySearchIff(self: int, parent: int, es: seq<Entry>, blk: nat)
    requires ValidBlk(blk) && Stream(BTREE_STRING, DirectoryList(self, parent, es), blk).Ok?
    requires ValuesInRange(DirectoryList(self, parent, es)) && Sorted(es)
    requires forall i :: 0 <= i < |es| ==> es[i].key != DOT && es[i].key != DOT_DOT
    ensures Chunks(DirectoryList(self, parent, es), blk).Ok?
    ensures var all, chunks := DirectoryList(self, parent, es), Chunks(DirectoryList(self, parent, es), blk).value;
            (forall key :: Lookup(NodeReader(Stream(BTREE_STRING, all, blk).value, blk), blk, key) == Ok(Scan(all, key)))
            <==> |chunks| == 1 || Less(DOT_DOT, chunks[1][0].key)
  {
    hide Lookup, Stream, Chunks, NodeReader, Sorted, ValuesInRange;
    var all := DirectoryList(self, parent, es);
    LookupFinds(BTREE_STRING, all, blk, DOT_DOT);
    var chunks: seq<seq<Entry>> := Chunks(all, blk).value;
    var read := NodeReader(Stream(BTREE_STRING, all, blk).value, blk);
    if |chunks| == 1 || Less(DOT_DOT, chunks[1][0].key) {
      forall key
        ensures Lookup(read, blk, key) == Ok(Scan(all, key))
      {
        LookupFinds(BTREE_STRING, all, blk, key);
        if |chunks| > 1 {
          DirectoryCovered(self, parent, es, blk, key);
        }
      }
    } else {
      DotDotLost(self, parent, es, blk);
      assert Lookup(read, blk, DOT_DOT) != Ok(Scan(all, DOT_DOT));
    }
  }

  lemma DirectoryCovered(self: int, parent: int, es: seq<Entry>, blk: nat, key: bytes)
    requires ValidBlk(blk) && Stream(BTREE_STRING, DirectoryList(self, parent, es), blk).Ok? && Sorted(es)
    requires |Chunks(DirectoryList(self, parent, es), blk).value| > 1
    requires Less(DOT_DOT, Chunks(DirectoryList(self, parent, es), blk).value[1][0].key)
    ensures var all, chunks := DirectoryList(self, parent, es), Chunks(DirectoryList(self, parent, es), blk).value;
            NoEmpty(chunks) && Scan(all, key) == Scan(chunks[CoveringChunk(chunks, key)], key)
  {
    hide Stream, Chunks, Less;
    var all := DirectoryList(self, parent, es);
    var j := DirectoryChunks(self, parent, es, blk);
    var chunks: seq<seq<Entry>> := Chunks(all, blk).value;
    var c, rest, first := chunks[0], es[j - 2..], es[j - 2];
    assert Flatten(chunks) == c + rest;
    assert es == es[..j - 2] + rest;
    SortedSplit(es[..j - 2], rest);
    ScanAppend(c, rest, key);
    if Less(key, first.key) {
      MissesAbove(rest, key);
    } else {
      DotOrder();
      LessTransitive(DOT, DOT_DOT, first.key);
      forall i | 0 <= i < |c|
        ensures Less(c[i].key, first.key)
      {
        if i >= 2 {
          assert c[i] == es[..j - 2][i - 2];
        }
      }
      MissesBelow(c, first, key);
      CoveringChunkDecides(chunks[1..], key);
    }
  }

  lemma DotDotLost(self: int, parent: int, es: seq<Entry>, blk: nat)
    requires ValidBlk(blk) && Stream(BTREE_STRING, DirectoryList(self, parent, es), blk).Ok?
    requires |Chunks(DirectoryList(self, parent, es), blk).value| > 1
    requires forall i :: 0 <= i < |es| ==> es[i].key != DOT && es[i].key != DOT_DOT
    requires !Less(DOT_DOT, Chunks(DirectoryList(self, parent, es), blk).value[1][0].key)
    ensures var all, chunks := DirectoryList(self, parent, es), Chunks(DirectoryList(self, parent, es), blk).value;
            NoEmpty(chunks) && Scan(all, DOT_DOT) == Some(parent) && Scan(chunks[CoveringChunk(chunks, DOT_DOT)], DOT_DOT) == None
  {
    hide Stream, Chunks, Less, Flatten;
    var all := DirectoryList(self, parent, es);
    var j := DirectoryChunks(self, parent, es, blk);
    var chunks: seq<seq<Entry>> := Chunks(all, blk).value;
    assert all[1..][0] == Entry(DOT_DOT, parent);
    var k := CoveringChunk(chunks[1..], DOT_DOT);
    var c := chunks[1..][k];
    forall i | 0 <= i < |c|
      ensures c[i].key != DOT_DOT
    {
      InFlatten(chunks[1..], k, i);
      assert c[i] in es[j - 2..];
    }
    ScanMisses(c, DOT_DOT);
    assert CoveringChunk(chunks, DOT_DOT) == 1 + k;
  }

  /** A directory of two leaves, its names behind dashes, in which search does not find `..`. */
  lemma DirectorySearchFails(self: int, parent: int) returns (es: seq<Entry>)
    requires ValuesInRange(DirectoryList(self, parent, []))
    ensures Sorted(es) && ValuesInRange(DirectoryList(self, parent, es))
    ensures Stream(BTREE_STRING, DirectoryList(self, parent, es), 1024).Ok?
    ensures var all := DirectoryList(self, parent, es);
            && Scan(all, DOT_DOT) == Some(parent)
            && Lookup(NodeReader(Stream(BTREE_STRING, all, 1024).value, 1024), 1024, DOT_DOT) == Ok(None)
  {
    hide Stream, Chunks, Lookup, NodeReader, Zeros, Fits;
    var n1, n2 := Entry([45, 0] + Zeros(898), 0), Entry([45, 1] + Zeros(898), 0);
    es := [n1, n2];
    var all, cs := DirectoryList(self, parent, es), [DirectoryList(self, parent, [n1]), [n2]];
    DashOrder(n1, n2);
    assert DirectoryList(self, parent, [])[0].value == self && DirectoryList(self, parent, [])[1].value == parent;
    TwoLeaves(self, parent, n1, n2);
    assert Flatten(cs) == all by { FlattenPair(cs[0], cs[1]); }
    TightChunks(cs, 1024);
    AllFitEachFits(cs, 1024);
    StreamAccepts(BTREE_STRING, all, 1024);
    DotDotLost(self, parent, es, 1024);
    LookupFinds(BTREE_STRING, all, 1024, DOT_DOT);
  }

  lemma FlattenPair(a: seq<Entry>, b: seq<Entry>)
    ensures Flatten([a, b]) == a + b
  {
    assert [a, b] == [a] + [b];
    FlattenCons(a, [b]);
    FlattenOne(b);
  }

  lemma DashOrder(n1: Entry, n2: Entry)
    requires n1.key == [45, 0] + Zeros(898) && n2.key == [45, 1] + Zeros(898)
    ensures Sorted([n1, n2]) && n1.key[0] == n2.key[0] == 45 && !Less(DOT_DOT, n2.key)
    ensures n1.key != DOT && n1.key != DOT_DOT && n2.key != DOT && n2.key != DOT_DOT
  {
    hide Zeros;
    assert n1.key[1..][0] == 0 && n2.key[1..][0] == 1;
    assert Less(n1.key[1..], n2.key[1..]);
    assert Less(n1.key, n2.key);
  }

  lemma TwoLeaves(self: int, parent: int, n1: Entry, n2: Entry)
    requires |n1.key| == 900 && |n2.key| == 900
    ensures var a, b := DirectoryList(self, parent, [n1]), [n2];
            && Fits(a, 1024) && Fits(b, 1024) && !Fits(a + [n2], 1024)
            && Fits(Separators([a, b], 1024), 1024)
  {
    var d, dd := Entry(DOT, self), Entry(DOT_DOT, parent);
    var a, b := DirectoryList(self, parent, [n1]), [n2];
    KeyDataOne(d);
    KeyDataAppend([d], [dd]);
    KeyDataOne(dd);
    assert [d] + [dd] == [d, dd] && a == [d, dd] + [n1];
    BudgetSnoc([d, dd], n1);
    KeyDataAppend([d, dd], [n1]);
    KeyDataOne(n1);
    BudgetSnoc(a, n2);
    KeyDataOne(n2);
    var seps := Separators([a, b], 1024);
    assert seps == [Entry(n2.key, LeafOffset(0, 1024))];
    KeyDataOne(seps[0]);
  }

  lemma DotOrder()
    ensures Less(DOT, DOT_DOT)
  {
    assert Less(DOT[1..], DOT_DOT[1..]);
  }

  const NAME: bytes := [110, 97, 109, 101]
  const SIZE: bytes := [115, 105, 122, 101]
  const LAST_MODIFIED: bytes := [108, 97, 115, 116, 95, 109, 111, 100, 105, 102, 105, 101, 100]
  const APP_SIG: bytes := [66, 69, 79, 83, 58, 65, 80, 80, 95, 83, 73, 71]

  /** The staged index directory lists name, size, last_modified, BEOS:APP_SIG: contrary to
      the comment beside it, that is not ascending. */
  lemma StagedIndicesUnsorted(a: int, b: int, c: int, d: int)
    ensures !Sorted([Entry(NAME, a), Entry(SIZE, b), Entry(LAST_MODIFIED, c), Entry(APP_SIG, d)])
  {
    var es := [Entry(NAME, a), Entry(SIZE, b), Entry(LAST_MODIFIED, c), Entry(APP_SIG, d)];
    assert !Less(es[0].key, es[3].key);
  }
}
