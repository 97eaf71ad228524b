/**
 The B+tree writer of `tools/mkbefs.py`: nodes, the greedy packing of entries into leaves
 and the depth-1 or depth-2 stream built from them.
 */
module BPlusTree {
  import opened Bytes

  datatype Entry = Entry(key: bytes, value: int)

  /** BTREE_NULL: all 64 bits set, which the readers see as -1. */
  const NULL_LINK: int := -1
  const BTREE_MAGIC: nat := 0x69F6C2E8
  const BTREE_STRING: nat := 0
  const BTREE_INT64: nat := 3

  /** Every block size the 16-bit node counters can describe. It covers the powers of two
      from 1 KiB to 64 KiB. */
  predicate ValidBlk(blk: nat)
  {
    1024 <= blk <= 0x1_0000 && blk % 8 == 0
  }

  function KeyAlign(n: nat): (r: nat)
    ensures n <= r <= n + 7
  {
    (n + 7) / 8 * 8
  }

  /** The next multiple of eight. */
  lemma KeyAlignIsNext(n: nat, k: nat)
    requires n <= k < n + 8
    ensures KeyAlign(n) == k <==> k % 8 == 0
  {
  }

  // ---------------------------------------------------------------------------
  // Nodes
  // ---------------------------------------------------------------------------

  function Keys(es: seq<Entry>): (ks: seq<bytes>)
    ensures |ks| == |es|
  {
    seq(|es|, i requires 0 <= i < |es| => es[i].key)
  }

  function KeyData(es: seq<Entry>): bytes
  {
    Flatten(Keys(es))
  }

  function LenFields(es: seq<Entry>): (fs: seq<bytes>)
    ensures Uniform(fs, 2) && |fs| == |es|
  {
    seq(|es|, i requires 0 <= i < |es| => Encode(|es[i].key|, 2))
  }

  function ValueFields(es: seq<Entry>): (fs: seq<bytes>)
    ensures Uniform(fs, 8) && |fs| == |es|
  {
    seq(|es|, i requires 0 <= i < |es| => Encode(es[i].value, 8))
  }

  /** Where the key-length array of a node starts. */
  function LensPos(es: seq<Entry>): nat
  {
    KeyAlign(28 + |KeyData(es)|)
  }

  /** Bytes a node needs for these entries. */
  function Budget(es: seq<Entry>): nat
  {
    LensPos(es) + 10 * |es|
  }

  predicate Fits(es: seq<Entry>, blk: nat)
  {
    Budget(es) <= blk
  }

  function NodeHeader(es: seq<Entry>, left: int, right: int, overflow: int): (h: bytes)
    ensures |h| == 28
  {
    Encode(left, 8) + Encode(right, 8) + Encode(overflow, 8) + Encode(|es|, 2) + Encode(|KeyData(es)|, 2)
  }

  /** The part of a node before its key-length array. */
  function NodeFront(es: seq<Entry>, left: int, right: int, overflow: int): (f: bytes)
    ensures |f| == LensPos(es)
  {
    NodeHeader(es, left, right, overflow) + KeyData(es) + Zeros(LensPos(es) - 28 - |KeyData(es)|)
  }

  /** The one-block image of a node. */
  function NodeBytes(es: seq<Entry>, left: int, right: int, overflow: int, blk: nat): (r: bytes)
    requires Fits(es, blk)
    ensures |r| == blk
  {
    UniformLength(LenFields(es), 2);
    UniformLength(ValueFields(es), 8);
    NodeFront(es, left, right, overflow) + Flatten(LenFields(es)) + Flatten(ValueFields(es))
      + Zeros(blk - Budget(es))
  }

  function Node(es: seq<Entry>, left: int, right: int, overflow: int, blk: nat): Result<bytes>
  {
    if Fits(es, blk) then Ok(NodeBytes(es, left, right, overflow, blk)) else Err(NodeOverflow)
  }

  lemma FieldsPrefix(fs: seq<bytes>, i: nat)
    requires i < |fs|
    ensures Flatten(fs[..i + 1]) == Flatten(fs[..i]) + fs[i]
  {
    assert fs[..i + 1] == fs[..i] + [fs[i]];
    FlattenSnoc(fs[..i], fs[i]);
  }

  /** Extending a patched region of a buffer by one field. */
  lemma SpliceNext(node: bytes, pos: nat, done: bytes, d: bytes)
    requires pos + |done| + |d| <= |node|
    ensures Splice(node[..pos] + done + node[pos + |done|..], pos + |done|, pos + |done| + |d|, d)
         == node[..pos] + (done + d) + node[pos + |done| + |d|..]
  {
    var s := node[..pos] + done + node[pos + |done|..];
    assert s[..pos + |done|] == node[..pos] + done;
    assert s[pos + |done| + |d|..] == node[pos + |done| + |d|..];
  }

  /** One of the array-filling loops of `btree_node`. */
  method WriteFields(node: bytes, pos: nat, fs: seq<bytes>) returns (out: bytes, end: nat)
    ensures end == pos + |Flatten(fs)|
    ensures end <= |node| ==> out == node[..pos] + Flatten(fs) + node[end..]
  {
    out, end := node, pos;
    var i := 0;
    assert fs[..0] == [];
    while i < |fs|
      invariant 0 <= i <= |fs|
      invariant end == pos + |Flatten(fs[..i])|
      invariant end <= |node| ==> out == node[..pos] + Flatten(fs[..i]) + node[end..]
    {
      FieldsPrefix(fs, i);
      if end + |fs[i]| <= |node| {
        SpliceNext(node, pos, Flatten(fs[..i]), fs[i]);
      }
      out := Splice(out, end, end + |fs[i]|, fs[i]);
      end := end + |fs[i]|;
      i := i + 1;
    }
    assert fs[..i] == fs;
  }

  /** Laying the parts of a fitting node over a zeroed block one after the other. */
  lemma NodeLayout(es: seq<Entry>, left: int, right: int, overflow: int, blk: nat)
    requires Fits(es, blk)
    ensures |Flatten(LenFields(es))| == 2 * |es| && |Flatten(ValueFields(es))| == 8 * |es|
    ensures var front := NodeFront(es, left, right, overflow);
            var n1 := front + Zeros(blk - |front|);
            var n2 := n1[..|front|] + Flatten(LenFields(es)) + n1[|front| + 2 * |es|..];
            n2[..|front| + 2 * |es|] + Flatten(ValueFields(es)) + n2[Budget(es)..]
            == NodeBytes(es, left, right, overflow, blk)
  {
    UniformLength(LenFields(es), 2);
    UniformLength(ValueFields(es), 8);
  }

  lemma FrontLayout(header: bytes, keys: bytes, blk: nat)
    requires |header| == 28 <= blk
    ensures var n := Splice(Splice(Zeros(blk), 0, 28, header), 28, 28 + |keys|, keys);
            && |n| >= blk
            && (KeyAlign(28 + |keys|) <= blk ==>
                  n == header + keys + Zeros(KeyAlign(28 + |keys|) - 28 - |keys|) + Zeros(blk - KeyAlign(28 + |keys|)))
  {
    assert Splice(Zeros(blk), 0, 28, header) == header + Zeros(blk - 28);
    if 28 + |keys| <= blk {
      assert Splice(header + Zeros(blk - 28), 28, 28 + |keys|, keys) == header + keys + Zeros(blk - 28 - |keys|);
    }
  }

  /** `btree_node`: the node is laid out in place, and the overflow test comes last. */
  method BtreeNode(es: seq<Entry>, left: int, right: int, overflow: int, blk: nat) returns (r: Result<bytes>)
    requires ValidBlk(blk)
    ensures r == Node(es, left, right, overflow, blk)
  {
    var keys := KeyData(es);
    var node := Zeros(blk);
    node := Splice(node, 0, 28, NodeHeader(es, left, right, overflow));
    node := Splice(node, 28, 28 + |keys|, keys);
    var pos := KeyAlign(28 + |keys|);
    FrontLayout(NodeHeader(es, left, right, overflow), keys, blk);
    UniformLength(LenFields(es), 2);
    UniformLength(ValueFields(es), 8);
    node, pos := WriteFields(node, pos, LenFields(es));
    node, pos := WriteFields(node, pos, ValueFields(es));
    if pos > blk {
      return Err(NodeOverflow);
    }
    NodeLayout(es, left, right, overflow, blk);
    return Ok(node);
  }

  // ---------------------------------------------------------------------------
  // Packing entries into leaves
  // ---------------------------------------------------------------------------

  function Prepend<T>(xs: seq<T>, r: Result<seq<T>>): Result<seq<T>>
  {
    if r.Ok? then Ok(xs + r.value) else r
  }

  lemma PrependNone<T>(r: Result<seq<T>>)
    ensures Prepend([], r) == r
  {
    if r.Ok? {
      assert [] + r.value == r.value;
    }
  }

  lemma PrependTwice<T>(xs: seq<T>, ys: seq<T>, r: Result<seq<T>>)
    ensures Prepend(xs + ys, r) == Prepend(xs, Prepend(ys, r))
  {
    if r.Ok? {
      assert xs + ys + r.value == xs + (ys + r.value);
    }
  }

  predicate NoEmpty(cs: seq<seq<Entry>>)
  {
    forall i :: 0 <= i < |cs| ==> cs[i] != []
  }

  /** Greedy packing with an open chunk `cur`. */
  function Greedy(cur: seq<Entry>, rest: seq<Entry>, blk: nat): Result<seq<seq<Entry>>>
    decreases |rest|
  {
    if rest == [] then Ok([cur])
    else if cur != [] && !Fits(cur + [rest[0]], blk) then
      if !Fits([rest[0]], blk) then Err(KeyTooLarge)
      else Prepend([cur], Greedy([rest[0]], rest[1..], blk))
    else Greedy(cur + [rest[0]], rest[1..], blk)
  }

  lemma {:induction false} GreedyNonEmpty(cur: seq<Entry>, rest: seq<Entry>, blk: nat)
    requires cur != [] || rest != []
    ensures var r := Greedy(cur, rest, blk); r.Ok? ==> |r.value| >= 1 && NoEmpty(r.value)
    decreases |rest|
  {
    if rest != [] {
      if cur != [] && !Fits(cur + [rest[0]], blk) {
        GreedyNonEmpty([rest[0]], rest[1..], blk);
      } else {
        GreedyNonEmpty(cur + [rest[0]], rest[1..], blk);
      }
    }
  }

  function Chunks(es: seq<Entry>, blk: nat): (r: Result<seq<seq<Entry>>>)
    ensures r.Ok? ==> |r.value| >= 1
    ensures r.Ok? && |r.value| > 1 ==> NoEmpty(r.value)
  {
    if es != [] then GreedyNonEmpty([], es, blk); Greedy([], es, blk) else Greedy([], es, blk)
  }

  lemma KeyDataAppend(a: seq<Entry>, b: seq<Entry>)
    ensures KeyData(a + b) == KeyData(a) + KeyData(b)
  {
    assert Keys(a + b) == Keys(a) + Keys(b);
    FlattenAppend(Keys(a), Keys(b));
  }

  lemma KeyDataOne(e: Entry)
    ensures KeyData([e]) == e.key
  {
    assert Keys([e]) == [e.key];
    assert Flatten([e.key]) == e.key + Flatten<byte>([]);
  }

  lemma BudgetSnoc(a: seq<Entry>, e: Entry)
    ensures Budget(a + [e]) == KeyAlign(28 + |KeyData(a)| + |e.key|) + 10 * (|a| + 1)
  {
    KeyDataAppend(a, [e]);
    KeyDataOne(e);
  }

  lemma BudgetMiddle(a: seq<Entry>, b: seq<Entry>, c: seq<Entry>)
    ensures Budget(b) <= Budget(a + b + c)
  {
    KeyDataAppend(a + b, c);
    KeyDataAppend(a, b);
  }

  lemma NoKeyData()
    ensures KeyData([]) == []
  {
  }

  lemma PrependOk<T>(xs: seq<T>, x: T)
    ensures Prepend(xs, Ok([x])) == Ok(xs + [x])
  {
  }

  lemma PrependErr<T>(xs: seq<T>, e: Error)
    ensures Prepend(xs, Err(e)) == Err(e)
  {
  }

  /** `leaf_chunks` */
  method LeafChunks(es: seq<Entry>, blk: nat) returns (r: Result<seq<seq<Entry>>>)
    ensures r == Chunks(es, blk)
  {
    hide KeyData, Prepend;
    var chunks: seq<seq<Entry>>, cur: seq<Entry>, keyBytes, n := [], [], 0, 0;
    var i := 0;
    assert KeyData([]) == [] by { NoKeyData(); }
    assert es[0..] == es;
    PrependNone(Chunks(es, blk));
    while i < |es|
      invariant 0 <= i <= |es|
      invariant n == |cur| && keyBytes == |KeyData(cur)|
      invariant cur == [] ==> chunks == [] && i == 0
      invariant Chunks(es, blk) == Prepend(chunks, Greedy(cur, es[i..], blk))
    {
      var e := es[i];
      assert es[i..][0] == e && es[i..][1..] == es[i + 1..];
      BudgetSnoc(cur, e);
      var used := KeyAlign(28 + keyBytes + |e.key|) + 10 * (n + 1);
      if cur != [] && used > blk {
        PrependTwice(chunks, [cur], Greedy([e], es[i + 1..], blk));
        chunks, cur, keyBytes, n := chunks + [cur], [], 0, 0;
        BudgetSnoc([], e);
        assert [] + [e] == [e];
        used := KeyAlign(28 + |e.key|) + 10;
        if used > blk {
          PrependErr(chunks[..|chunks| - 1], KeyTooLarge);
          return Err(KeyTooLarge);
        }
      }
      KeyDataAppend(cur, [e]);
      KeyDataOne(e);
      cur := cur + [e];
      keyBytes := keyBytes + |e.key|;
      n := n + 1;
      i := i + 1;
    }
    PrependOk(chunks, cur);
    if cur != [] || chunks == [] {
      chunks := chunks + [cur];
    }
    return Ok(chunks);
  }

  predicate AllFit(cs: seq<seq<Entry>>, blk: nat)
  {
    forall i :: 0 <= i < |cs| ==> Fits(cs[i], blk)
  }

  predicate EachFits(es: seq<Entry>, blk: nat)
  {
    forall i :: 0 <= i < |es| ==> Fits([es[i]], blk)
  }

  /** `j` entries of `rest` complete the open chunk: it fits, is as long as possible, and the
      rest is packed from scratch. */
  ghost predicate FirstChunk(cur: seq<Entry>, rest: seq<Entry>, blk: nat, j: nat)
  {
    && j <= |rest|
    && Fits(cur + rest[..j], blk)
    && (j == |rest| ==> Greedy(cur, rest, blk) == Ok([cur + rest[..j]]))
    && (j < |rest| ==>
          && !Fits(cur + rest[..j + 1], blk)
          && Greedy(cur, rest, blk) == Prepend([cur + rest[..j]], Chunks(rest[j..], blk)))
  }

  lemma FirstChunkExtend(cur: seq<Entry>, rest: seq<Entry>, blk: nat, k: nat)
    requires rest != [] && Greedy(cur, rest, blk) == Greedy(cur + [rest[0]], rest[1..], blk)
    requires FirstChunk(cur + [rest[0]], rest[1..], blk, k)
    ensures FirstChunk(cur, rest, blk, k + 1)
  {
    hide Fits, Greedy, Chunks;
    assert cur + [rest[0]] + rest[1..][..k] == cur + rest[..k + 1];
    assert rest[1..][k..] == rest[k + 1..];
    if k + 1 < |rest| {
      assert cur + [rest[0]] + rest[1..][..k + 1] == cur + rest[..k + 2];
    }
  }

  lemma {:induction false} GreedyFirst(cur: seq<Entry>, rest: seq<Entry>, blk: nat) returns (j: nat)
    requires EachFits(rest, blk)
    requires cur == [] || Fits(cur, blk)
    requires cur != [] || rest != []
    ensures FirstChunk(cur, rest, blk, j)
    ensures cur == [] ==> j > 0
    decreases |rest|
  {
    assert cur + rest[..0] == cur;
    if rest == [] {
      j := 0;
    } else {
      var e := rest[0];
      if cur != [] && !Fits(cur + [e], blk) {
        j := 0;
        assert cur + rest[..1] == cur + [e];
        assert rest[0..] == rest;
        assert [] + [e] == [e];
      } else {
        assert cur == [] ==> cur + [e] == [e];
        var k := GreedyFirst(cur + [e], rest[1..], blk);
        FirstChunkExtend(cur, rest, blk, k);
        j := k + 1;
      }
    }
  }

  /** When every key fits a node, packing succeeds, loses nothing and every chunk fits. */
  lemma {:induction false} ChunksCorrect(es: seq<Entry>, blk: nat)
    requires EachFits(es, blk) && es != []
    ensures Chunks(es, blk).Ok?
    ensures Flatten(Chunks(es, blk).value) == es
    ensures AllFit(Chunks(es, blk).value, blk) && NoEmpty(Chunks(es, blk).value)
    ensures |Chunks(es, blk).value| >= 1
    decreases |es|
  {
    var j := GreedyFirst([], es, blk);
    assert [] + es[..j] == es[..j];
    if j < |es| {
      ChunksCorrect(es[j..], blk);
      var more := Chunks(es[j..], blk).value;
      var all := Chunks(es, blk).value;
      assert all == [es[..j]] + more;
      assert all[1..] == more;
      assert es == es[..j] + es[j..];
    } else {
      assert Flatten([es]) == es + Flatten<Entry>([]);
      assert es[..j] == es;
    }
  }

  /** No chunk has room for the first entry of the next one. */
  ghost predicate Tight(cs: seq<seq<Entry>>, blk: nat)
    requires NoEmpty(cs)
  {
    forall i :: 0 <= i < |cs| - 1 ==> !Fits(cs[i] + [cs[i + 1][0]], blk)
  }

  lemma PrefixFits(es: seq<Entry>, j: nat, blk: nat)
    requires j <= |es| && Fits(es, blk)
    ensures Fits(es[..j], blk)
  {
    hide Budget;
    BudgetMiddle([], es[..j], es[j..]);
    assert [] + es[..j] + es[j..] == es;
  }

  /** The first chunk of a tight list is the one the packing makes. */
  lemma TightFirst(c: seq<Entry>, rest: seq<Entry>, blk: nat, j: nat)
    requires c != [] && Fits(c, blk) && (rest != [] ==> !Fits(c + [rest[0]], blk))
    requires FirstChunk([], c + rest, blk, j)
    ensures j == |c|
  {
    hide Fits, Greedy, Chunks;
    var es := c + rest;
    assert [] + es[..j] == es[..j];
    if j < |c| {
      assert [] + es[..j + 1] == c[..j + 1];
      PrefixFits(c, j + 1, blk);
    } else if j > |c| {
      assert es[..j][..|c| + 1] == c + [rest[0]];
      PrefixFits(es[..j], |c| + 1, blk);
    }
  }

  /** Fitting chunks without room for the next entry are what the packing of all of them gives. */
  lemma {:induction false} TightChunks(cs: seq<seq<Entry>>, blk: nat)
    requires |cs| >= 1 && NoEmpty(cs) && AllFit(cs, blk) && Tight(cs, blk)
    ensures Chunks(Flatten(cs), blk) == Ok(cs)
    decreases |cs|
  {
    hide Fits, Greedy;
    var c, rest := cs[0], Flatten(cs[1..]);
    assert Flatten(cs) == c + rest;
    AllFitEachFits(cs, blk);
    var j := GreedyFirst([], c + rest, blk);
    if |cs| == 1 {
      assert rest == [];
    } else {
      assert cs[1..][0] == cs[1];
      assert rest == cs[1] + Flatten(cs[1..][1..]);
    }
    TightFirst(c, rest, blk, j);
    assert [] + (c + rest)[..j] == c;
    if |cs| > 1 {
      assert (c + rest)[j..] == rest;
      TightChunks(cs[1..], blk);
      assert [c] + cs[1..] == cs;
    } else {
      assert cs == [c];
    }
  }

  /** No longer prefix of `s` is part of a fitting chunk. */
  lemma LongestPrefix(z: seq<Entry>, s: seq<Entry>, blk: nat, j: nat, c: nat)
    requires FirstChunk([], s, blk, j) && j < c <= |s|
    ensures !Fits(z + s[..c], blk)
  {
    assert [] + s[..j + 1] == s[..j + 1];
    BudgetMiddle(z, s[..j + 1], s[j + 1..c]);
    assert z + s[..j + 1] + s[j + 1..c] == z + s[..c];
  }

  /** The packing of a suffix never needs more chunks than any packing of the whole. */
  lemma {:induction false} GreedyStaysAhead(z: seq<Entry>, s: seq<Entry>, p: seq<seq<Entry>>, blk: nat)
    requires EachFits(s, blk) && s != []
    requires Flatten(p) == z + s && AllFit(p, blk)
    ensures Chunks(s, blk).Ok? && |Chunks(s, blk).value| <= |p|
    decreases |p|
  {
    ChunksCorrect(s, blk);
    assert p != [];
    var p0, t := p[0], Flatten(p[1..]);
    assert z + s == p0 + t;
    assert t == (z + s)[|p0|..];
    if |p0| <= |z| {
      assert t == z[|p0|..] + s;
      GreedyStaysAhead(z[|p0|..], s, p[1..], blk);
    } else {
      var c := |p0| - |z|;
      assert p0 == (z + s)[..|p0|] == z + s[..c];
      assert t == s[c..];
      var j := GreedyFirst([], s, blk);
      if j < |s| {
        if j < c {
          LongestPrefix(z, s, blk, j, c);
          assert false;
        }
        assert t == s[c..j] + s[j..];
        GreedyStaysAhead(s[c..j], s[j..], p[1..], blk);
      }
    }
  }

  /** `leaf_chunks` uses the fewest leaves: no contiguous partition into fitting chunks is
      shorter. */
  lemma ChunksOptimal(es: seq<Entry>, p: seq<seq<Entry>>, blk: nat)
    requires EachFits(es, blk) && es != []
    requires Flatten(p) == es && AllFit(p, blk)
    ensures Chunks(es, blk).Ok? && |Chunks(es, blk).value| <= |p|
  {
    assert [] + es == es;
    GreedyStaysAhead([], es, p, blk);
  }

  // ---------------------------------------------------------------------------
  // The stream
  // ---------------------------------------------------------------------------

  /** bplustree_header, padded to one block. */
  function TreeHeader(depth: nat, dataType: nat, maxSize: nat, blk: nat): (h: bytes)
    requires ValidBlk(blk)
    ensures |h| == blk
  {
    Encode(BTREE_MAGIC, 4) + Encode(blk, 4) + Encode(depth, 4) + Encode(dataType, 4)
      + Encode(blk, 8) + Encode(NULL_LINK, 8) + Encode(maxSize, 8) + Zeros(blk - 40)
  }

  /** Stream offset of leaf `i` of a depth-2 tree. */
  function LeafOffset(i: nat, blk: nat): nat
  {
    (2 + i) * blk
  }

  /** Root entry `i` pairs the first key of chunk `i + 1` with the offset of chunk `i`. */
  function Separators(chunks: seq<seq<Entry>>, blk: nat): (r: seq<Entry>)
    requires NoEmpty(chunks) && |chunks| >= 1
    ensures |r| == |chunks| - 1
  {
    seq(|chunks| - 1, i requires 0 <= i < |chunks| - 1 =>
      Entry(chunks[i + 1][0].key, LeafOffset(i, blk)))
  }

  function LeftLink(i: nat, blk: nat): int
  {
    if i > 0 then LeafOffset(i - 1, blk) else NULL_LINK
  }

  function RightLink(m: nat, i: nat, blk: nat): int
  {
    if i + 1 < m then LeafOffset(i + 1, blk) else NULL_LINK
  }

  function LeafPage(chunks: seq<seq<Entry>>, i: nat, blk: nat): Result<bytes>
    requires i < |chunks|
  {
    Node(chunks[i], LeftLink(i, blk), RightLink(|chunks|, i, blk), NULL_LINK, blk)
  }

  /** The leaves from leaf `i` on; the first one that does not fit stops the writer. */
  function LeafPages(chunks: seq<seq<Entry>>, i: nat, blk: nat): (r: Result<seq<bytes>>)
    requires i <= |chunks|
    ensures r.Ok? ==> |r.value| == |chunks| - i && Uniform(r.value, blk)
    decreases |chunks| - i
  {
    if i == |chunks| then Ok([])
    else
      var page :- LeafPage(chunks, i, blk);
      Prepend([page], LeafPages(chunks, i + 1, blk))
  }

  lemma {:induction false} LeafPagesAt(chunks: seq<seq<Entry>>, i: nat, blk: nat, k: nat)
    requires i <= k < |chunks| && LeafPages(chunks, i, blk).Ok?
    ensures LeafPage(chunks, k, blk) == Ok(LeafPages(chunks, i, blk).value[k - i])
    decreases k - i
  {
    if i < k {
      LeafPagesAt(chunks, i + 1, blk, k);
    }
  }

  lemma {:induction false} LeafPagesFit(chunks: seq<seq<Entry>>, i: nat, blk: nat)
    requires i <= |chunks|
    ensures LeafPages(chunks, i, blk).Ok? <==> AllFit(chunks[i..], blk)
    decreases |chunks| - i
  {
    if i < |chunks| {
      LeafPagesFit(chunks, i + 1, blk);
      assert chunks[i..] == [chunks[i]] + chunks[i + 1..];
    }
  }

  /** The blocks of the stream: header, root, and for a depth-2 tree the leaves. */
  function Pages(dataType: nat, es: seq<Entry>, blk: nat): (r: Result<seq<bytes>>)
    requires ValidBlk(blk)
    ensures r.Ok? ==> Uniform(r.value, blk)
  {
    var chunks :- Chunks(es, blk);
    if |chunks| == 1 then
      var leaf :- Node(chunks[0], NULL_LINK, NULL_LINK, NULL_LINK, blk);
      Ok([TreeHeader(1, dataType, 2 * blk, blk), leaf])
    else
      var root :- Node(Separators(chunks, blk), NULL_LINK, NULL_LINK, LeafOffset(|chunks| - 1, blk), blk);
      Prepend([TreeHeader(2, dataType, LeafOffset(|chunks|, blk), blk), root], LeafPages(chunks, 0, blk))
  }

  function Stream(dataType: nat, es: seq<Entry>, blk: nat): Result<bytes>
    requires ValidBlk(blk)
  {
    var pages :- Pages(dataType, es, blk);
    Ok(Flatten(pages))
  }

  function Join(pages: Result<seq<bytes>>): Result<bytes>
  {
    match pages
    case Ok(ps) => Ok(Flatten(ps))
    case Err(e) => Err(e)
  }

  /** The leaves of a depth-2 tree, joined in order. */
  method WriteLeaves(chunks: seq<seq<Entry>>, blk: nat) returns (r: Result<bytes>)
    requires ValidBlk(blk)
    ensures r == Join(LeafPages(chunks, 0, blk))
  {
    var out: bytes := [];
    ghost var pages: seq<bytes> := [];
    PrependNone(LeafPages(chunks, 0, blk));
    var i := 0;
    while i < |chunks|
      invariant 0 <= i <= |chunks|
      invariant out == Flatten(pages)
      invariant LeafPages(chunks, 0, blk) == Prepend(pages, LeafPages(chunks, i, blk))
    {
      var leaf := BtreeNode(chunks[i], LeftLink(i, blk), RightLink(|chunks|, i, blk), NULL_LINK, blk);
      assert leaf == LeafPage(chunks, i, blk);
      if leaf.Err? {
        return Err(leaf.error);
      }
      FlattenSnoc(pages, leaf.value);
      PrependTwice(pages, [leaf.value], LeafPages(chunks, i + 1, blk));
      pages := pages + [leaf.value];
      out := out + leaf.value;
      i := i + 1;
    }
    assert pages + [] == pages;
    return Ok(out);
  }

  lemma FlattenTwo(a: bytes, b: bytes, rest: seq<bytes>)
    ensures Flatten([a, b] + rest) == a + b + Flatten(rest)
  {
    assert ([a, b] + rest)[1..] == [b] + rest;
    assert ([b] + rest)[1..] == rest;
  }

  /** `btree_stream` */
  method BtreeStream(dataType: nat, es: seq<Entry>, blk: nat) returns (r: Result<bytes>)
    requires ValidBlk(blk)
    ensures r == Stream(dataType, es, blk)
  {
    var cs := LeafChunks(es, blk);
    if cs.Err? {
      return Err(cs.error);
    }
    var chunks := cs.value;
    if |chunks| == 1 {
      var leaf := BtreeNode(chunks[0], NULL_LINK, NULL_LINK, NULL_LINK, blk);
      if leaf.Err? {
        return Err(leaf.error);
      }
      var hdr := TreeHeader(1, dataType, 2 * blk, blk);
      FlattenTwo(hdr, leaf.value, []);
      assert [hdr, leaf.value] + [] == [hdr, leaf.value];
      assert hdr + leaf.value + Flatten<byte>([]) == hdr + leaf.value;
      return Ok(hdr + leaf.value);
    }
    var m := |chunks|;
    var root := BtreeNode(Separators(chunks, blk), NULL_LINK, NULL_LINK, LeafOffset(m - 1, blk), blk);
    if root.Err? {
      return Err(root.error);
    }
    var leaves := WriteLeaves(chunks, blk);
    if leaves.Err? {
      return Err(leaves.error);
    }
    var hdr := TreeHeader(2, dataType, LeafOffset(m, blk), blk);
    FlattenTwo(hdr, root.value, LeafPages(chunks, 0, blk).value);
    return Ok(hdr + root.value + leaves.value);
  }

  // ---------------------------------------------------------------------------
  // The size of a stream
  // ---------------------------------------------------------------------------

  /** The number of blocks of an accepted stream: two, or two plus the leaves. */
  function PageCount(es: seq<Entry>, blk: nat): nat
  {
    var r := Chunks(es, blk);
    if r.Err? then 0 else if |r.value| == 1 then 2 else 2 + |r.value|
  }

  lemma StreamLength(dataType: nat, es: seq<Entry>, blk: nat)
    requires ValidBlk(blk) && Stream(dataType, es, blk).Ok?
    ensures |Pages(dataType, es, blk).value| == PageCount(es, blk) >= 2
    ensures |Stream(dataType, es, blk).value| == blk * PageCount(es, blk)
  {
    UniformLength(Pages(dataType, es, blk).value, blk);
  }

  ghost predicate SameChunkKeys(a: seq<seq<Entry>>, b: seq<seq<Entry>>)
  {
    |a| == |b| && forall i :: 0 <= i < |a| ==> Keys(a[i]) == Keys(b[i])
  }

  lemma KeysPointwise(a: seq<Entry>, b: seq<Entry>)
    requires |a| == |b| && forall i :: 0 <= i < |a| ==> a[i].key == b[i].key
    ensures Keys(a) == Keys(b)
  {
  }

  lemma KeysIndex(a: seq<Entry>, b: seq<Entry>)
    requires Keys(a) == Keys(b)
    ensures |a| == |b| && forall i :: 0 <= i < |a| ==> a[i].key == b[i].key
  {
    forall i | 0 <= i < |a|
      ensures a[i].key == b[i].key
    {
      assert Keys(a)[i] == a[i].key && Keys(b)[i] == b[i].key;
    }
  }

  lemma FitsByKeys(a: seq<Entry>, b: seq<Entry>, blk: nat)
    requires Keys(a) == Keys(b)
    ensures Fits(a, blk) == Fits(b, blk)
  {
    KeysIndex(a, b);
  }

  lemma SameChunksOne(a: seq<Entry>, b: seq<Entry>)
    requires Keys(a) == Keys(b)
    ensures SameChunkKeys([a], [b])
  {
  }

  lemma SameChunksCons(a: seq<Entry>, b: seq<Entry>, as': seq<seq<Entry>>, bs: seq<seq<Entry>>)
    requires Keys(a) == Keys(b) && SameChunkKeys(as', bs)
    ensures SameChunkKeys([a] + as', [b] + bs)
  {
  }

  /** Packing looks only at the keys. */
  lemma {:induction false} GreedyKeysOnly(cur: seq<Entry>, rest: seq<Entry>, cur': seq<Entry>, rest': seq<Entry>, blk: nat)
    requires Keys(cur) == Keys(cur') && Keys(rest) == Keys(rest')
    ensures var r, r' := Greedy(cur, rest, blk), Greedy(cur', rest', blk);
            && r.Ok? == r'.Ok?
            && (r.Ok? ==> SameChunkKeys(r.value, r'.value))
            && (r.Err? ==> r == r')
    decreases |rest|
  {
    hide Keys, Fits, SameChunkKeys;
    KeysIndex(cur, cur');
    KeysIndex(rest, rest');
    if rest == [] {
      SameChunksOne(cur, cur');
    } else {
      var e, e' := rest[0], rest'[0];
      KeysPointwise(cur + [e], cur' + [e']);
      KeysPointwise([e], [e']);
      KeysPointwise(rest[1..], rest'[1..]);
      FitsByKeys(cur + [e], cur' + [e'], blk);
      FitsByKeys([e], [e'], blk);
      if cur != [] && !Fits(cur + [e], blk) {
        GreedyKeysOnly([e], rest[1..], [e'], rest'[1..], blk);
        var r, r' := Greedy([e], rest[1..], blk), Greedy([e'], rest'[1..], blk);
        if r.Ok? {
          SameChunksCons(cur, cur', r.value, r'.value);
        }
      } else {
        GreedyKeysOnly(cur + [e], rest[1..], cur' + [e'], rest'[1..], blk);
      }
    }
  }

  /** Two entry lists with the same keys give streams of the same size, or fail alike: the
      "resized between passes" abort of the second pass cannot fire. */
  lemma StreamSizeFromKeys(dataType: nat, es: seq<Entry>, es': seq<Entry>, blk: nat)
    requires ValidBlk(blk) && Keys(es) == Keys(es')
    ensures Stream(dataType, es, blk).Ok? == Stream(dataType, es', blk).Ok?
    ensures PageCount(es, blk) == PageCount(es', blk)
    ensures Stream(dataType, es, blk).Ok? ==>
              |Stream(dataType, es, blk).value| == |Stream(dataType, es', blk).value|
  {
    GreedyKeysOnly([], es, [], es', blk);
    var r, r' := Chunks(es, blk), Chunks(es', blk);
    if r.Ok? {
      SameKeysSameFit(r.value, r'.value, blk);
      LeafPagesFit(r.value, 0, blk);
      LeafPagesFit(r'.value, 0, blk);
      assert r.value[0..] == r.value && r'.value[0..] == r'.value;
      if Stream(dataType, es, blk).Ok? {
        StreamLength(dataType, es, blk);
        StreamLength(dataType, es', blk);
      }
    }
  }

  lemma SameKeysSameFit(a: seq<seq<Entry>>, b: seq<seq<Entry>>, blk: nat)
    requires SameChunkKeys(a, b)
    ensures AllFit(a, blk) == AllFit(b, blk)
    ensures NoEmpty(a) && NoEmpty(b) && |a| >= 1 ==>
              Fits(Separators(a, blk), blk) == Fits(Separators(b, blk), blk)
  {
    forall i | 0 <= i < |a|
      ensures Fits(a[i], blk) == Fits(b[i], blk) && |a[i]| == |b[i]|
    {
      KeysIndex(a[i], b[i]);
    }
    if NoEmpty(a) && NoEmpty(b) && |a| >= 1 {
      forall i | 0 <= i < |a|
        ensures a[i][0].key == b[i][0].key
      {
        KeysIndex(a[i], b[i]);
      }
      KeysPointwise(Separators(a, blk), Separators(b, blk));
    }
  }

  // ---------------------------------------------------------------------------
  // Which entry lists are accepted
  // ---------------------------------------------------------------------------

  lemma {:induction false} GreedyFlatten(cur: seq<Entry>, rest: seq<Entry>, blk: nat)
    requires Greedy(cur, rest, blk).Ok?
    ensures Flatten(Greedy(cur, rest, blk).value) == cur + rest
    decreases |rest|
  {
    if rest == [] {
      assert Flatten([cur]) == cur + Flatten<Entry>([]);
      assert cur + rest == cur;
    } else {
      assert rest == [rest[0]] + rest[1..];
      if cur != [] && !Fits(cur + [rest[0]], blk) {
        GreedyFlatten([rest[0]], rest[1..], blk);
        var r := Greedy(cur, rest, blk).value;
        assert r[1..] == Greedy([rest[0]], rest[1..], blk).value;
      } else {
        GreedyFlatten(cur + [rest[0]], rest[1..], blk);
        assert cur + [rest[0]] + rest[1..] == cur + rest;
      }
    }
  }

  lemma {:induction false} AllFitEachFits(cs: seq<seq<Entry>>, blk: nat)
    requires AllFit(cs, blk)
    ensures EachFits(Flatten(cs), blk)
  {
    if cs != [] {
      AllFitEachFits(cs[1..], blk);
      var c := cs[0];
      forall i | 0 <= i < |c|
        ensures Fits([c[i]], blk)
      {
        BudgetMiddle(c[..i], [c[i]], c[i + 1..]);
        assert c[..i] + [c[i]] + c[i + 1..] == c;
      }
    }
  }

  /** An entry list is accepted exactly when every key fits a node by itself and the
      separators of a depth-2 tree fit one root. */
  lemma StreamAccepts(dataType: nat, es: seq<Entry>, blk: nat)
    requires ValidBlk(blk)
    ensures Stream(dataType, es, blk).Ok? <==>
              && EachFits(es, blk)
              && Chunks(es, blk).Ok?
              && var cs := Chunks(es, blk).value;
                 |cs| == 1 || Fits(Separators(cs, blk), blk)
  {
    var r := Chunks(es, blk);
    if r.Ok? {
      var cs := r.value;
      GreedyFlatten([], es, blk);
      assert [] + es == es;
      LeafPagesFit(cs, 0, blk);
      assert cs[0..] == cs;
      if AllFit(cs, blk) {
        AllFitEachFits(cs, blk);
      }
      if EachFits(es, blk) && es != [] {
        ChunksCorrect(es, blk);
      }
    }
  }

  /** Entries that fit one node become one leaf. */
  lemma OneChunk(es: seq<Entry>, blk: nat)
    requires Fits(es, blk)
    ensures Chunks(es, blk) == Ok([es])
  {
    hide Fits;
    if es != [] {
      FlattenOne(es);
      AllFitEachFits([es], blk);
      ChunksOptimal(es, [es], blk);
      GreedyFlatten([], es, blk);
      assert [] + es == es;
      var cs := Chunks(es, blk).value;
      assert cs == [cs[0]];
      FlattenOne(cs[0]);
    }
  }
}
