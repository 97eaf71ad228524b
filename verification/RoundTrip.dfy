/**
 Both readers invert the B+tree writer: for every entry list the writer accepts, the bytes it
 emits read back as exactly that list, in order.
 */
module RoundTrip {
  import opened Bytes
  import opened BPlusTree
  import opened TreeReaders

  // ---------------------------------------------------------------------------
  // One node
  // ---------------------------------------------------------------------------

  /** Values that a signed 64-bit field can hold. */
  ghost predicate ValuesInRange(es: seq<Entry>)
  {
    forall i :: 0 <= i < |es| ==> -MAX_I64 <= es[i].value < MAX_I64
  }

  /** The fixed fields of a node. */
  ghost predicate HeaderAt(nd: bytes, n: nat, klen: nat, left: int, right: int, overflow: int)
  {
    && FieldAt(nd, 0, Encode(left, 8))
    && FieldAt(nd, 8, Encode(right, 8))
    && FieldAt(nd, 16, Encode(overflow, 8))
    && FieldAt(nd, 24, Encode(n, 2))
    && FieldAt(nd, 26, Encode(klen, 2))
  }

  /** The variable part of a node. */
  ghost predicate EntriesAt(nd: bytes, es: seq<Entry>)
  {
    && FieldAt(nd, 28, KeyData(es))
    && (forall j :: 0 <= j < |es| ==> FieldAt(nd, LensPos(es) + 2 * j, Encode(|es[j].key|, 2)))
    && (forall j :: 0 <= j < |es| ==> FieldAt(nd, LensPos(es) + 2 * |es| + 8 * j, Encode(es[j].value, 8)))
  }

  lemma HeaderBytes(nd: bytes, es: seq<Entry>, left: int, right: int, overflow: int)
    requires |nd| >= 28 && nd[..28] == NodeHeader(es, left, right, overflow)
    ensures HeaderAt(nd, |es|, |KeyData(es)|, left, right, overflow)
  {
    var h := NodeHeader(es, left, right, overflow);
    assert nd[0..8] == h[0..8] && nd[8..16] == h[8..16] && nd[16..24] == h[16..24];
    assert nd[24..26] == h[24..26] && nd[26..28] == h[26..28];
  }

  lemma FieldInside(a: bytes, fs: seq<bytes>, c: bytes, w: nat, j: nat)
    requires Uniform(fs, w) && j < |fs|
    ensures FieldAt(a + Flatten(fs) + c, |a| + w * j, fs[j])
  {
    hide FieldAt, Flatten, Uniform;
    UniformAt(fs, w, j);
    var lo := w * j;
    PartInside(a, Flatten(fs), c, lo, lo + w);
  }

  lemma PartInside(a: bytes, f: bytes, c: bytes, lo: nat, hi: nat)
    requires lo <= hi <= |f|
    ensures FieldAt(a + f + c, |a| + lo, f[lo..hi])
  {
    assert (a + f + c)[|a| + lo..|a| + hi] == f[lo..hi];
  }

  lemma NodeParts(es: seq<Entry>, left: int, right: int, overflow: int, blk: nat)
    requires Fits(es, blk)
    ensures HeaderAt(NodeBytes(es, left, right, overflow, blk), |es|, |KeyData(es)|, left, right, overflow)
    ensures EntriesAt(NodeBytes(es, left, right, overflow, blk), es)
  {
    var nd := NodeBytes(es, left, right, overflow, blk);
    var front, lens, vals := NodeFront(es, left, right, overflow), LenFields(es), ValueFields(es);
    UniformLength(lens, 2);
    UniformLength(vals, 8);
    var tail := Zeros(blk - Budget(es));
    FrontParts(nd, es, left, right, overflow);
    forall j | 0 <= j < |es|
      ensures FieldAt(nd, LensPos(es) + 2 * j, Encode(|es[j].key|, 2))
    {
      FieldInside(front, lens, Flatten(vals) + tail, 2, j);
      assert nd == front + Flatten(lens) + (Flatten(vals) + tail);
    }
    forall j | 0 <= j < |es|
      ensures FieldAt(nd, LensPos(es) + 2 * |es| + 8 * j, Encode(es[j].value, 8))
    {
      FieldInside(front + Flatten(lens), vals, tail, 8, j);
    }
  }

  lemma FrontParts(nd: bytes, es: seq<Entry>, left: int, right: int, overflow: int)
    requires NodeFront(es, left, right, overflow) <= nd
    ensures HeaderAt(nd, |es|, |KeyData(es)|, left, right, overflow)
    ensures FieldAt(nd, 28, KeyData(es))
  {
    var front := NodeFront(es, left, right, overflow);
    assert nd[..28] == front[..28] == NodeHeader(es, left, right, overflow);
    HeaderBytes(nd, es, left, right, overflow);
    assert nd[28..28 + |KeyData(es)|] == front[28..28 + |KeyData(es)|] == KeyData(es);
  }

  /** A key of the node as a slice of the key area. */
  lemma KeySlice(es: seq<Entry>, j: nat)
    requires j < |es|
    ensures KeyData(es[..j + 1]) == KeyData(es[..j]) + es[j].key
    ensures |KeyData(es[..j + 1])| <= |KeyData(es)|
    ensures KeyData(es)[|KeyData(es[..j])|..|KeyData(es[..j + 1])|] == es[j].key
  {
    assert es[..j + 1] == es[..j] + [es[j]];
    KeyDataAppend(es[..j], [es[j]]);
    KeyDataOne(es[j]);
    assert es == es[..j + 1] + es[j + 1..];
    KeyDataAppend(es[..j + 1], es[j + 1..]);
  }

  lemma LengthRead(nd: bytes, es: seq<Entry>, j: nat)
    requires EntriesAt(nd, es) && |KeyData(es)| < 0x1_0000 && j < |es|
    ensures U16(nd, LensPos(es) + 2 * j) == Ok(|es[j].key|)
  {
    KeySlice(es, j);
    ReadU16(nd, LensPos(es) + 2 * j, |es[j].key|);
  }

  lemma ValueRead(nd: bytes, es: seq<Entry>, j: nat)
    requires EntriesAt(nd, es) && ValuesInRange(es) && j < |es|
    ensures I64(nd, LensPos(es) + 2 * |es| + 8 * j) == Ok(es[j].value)
  {
    ReadI64(nd, LensPos(es) + 2 * |es| + 8 * j, es[j].value);
  }

  lemma EntryRead(nd: bytes, es: seq<Entry>, j: nat)
    requires j < |es|
    requires U16(nd, LensPos(es) + 2 * j) == Ok(|es[j].key|)
    requires I64(nd, LensPos(es) + 2 * |es| + 8 * j) == Ok(es[j].value)
    ensures EntryAt(nd, KeyData(es), LensPos(es), |es|, j, |KeyData(es[..j])|)
         == Ok(ParsedEntry(es[j], |es[j].key|))
  {
    KeySlice(es, j);
  }

  lemma {:induction false} EntriesRead(nd: bytes, es: seq<Entry>, j: nat)
    requires EntriesAt(nd, es) && ValuesInRange(es) && |KeyData(es)| < 0x1_0000
    requires j <= |es|
    ensures EntriesFrom(nd, KeyData(es), LensPos(es), |es|, j, |KeyData(es[..j])|, es[..j]) == Ok(es)
    decreases |es| - j
  {
    hide EntryAt, KeyData, EntriesAt, LensPos, ValuesInRange;
    if j == |es| {
      assert es[..j] == es;
    } else {
      LengthRead(nd, es, j);
      ValueRead(nd, es, j);
      EntryRead(nd, es, j);
      EntriesRead(nd, es, j + 1);
      KeySlice(es, j);
      assert es[..j + 1] == es[..j] + [es[j]];
    }
  }

  ghost predicate SmallNode(es: seq<Entry>)
  {
    |es| < 0x1_0000 && |KeyData(es)| < 0x1_0000
  }

  /** The node parser inverts the node writer. */
  lemma NodeRoundTrip(nd: bytes, es: seq<Entry>, left: int, right: int, overflow: int)
    requires HeaderAt(nd, |es|, |KeyData(es)|, left, right, overflow) && EntriesAt(nd, es)
    requires ValuesInRange(es) && SmallNode(es)
    ensures NodeEntries(nd) == Ok(es)
  {
    ReadU16(nd, 24, |es|);
    ReadU16(nd, 26, |KeyData(es)|);
    assert Slice(nd, 28, 28 + |KeyData(es)|) == KeyData(es);
    EntriesRead(nd, es, 0);
    assert es[..0] == [];
  }

  /** However the lengths read, the keys of a node come from disjoint stretches of its key area. */
  lemma {:induction false} KeysWithin(nd: bytes, keys: bytes, pos: nat, count: nat, j: nat, koff: nat, out: seq<Entry>)
    requires j <= count && |KeyData(out)| <= koff && |KeyData(out)| <= |keys|
    ensures var r := EntriesFrom(nd, keys, pos, count, j, koff, out);
            r.Ok? ==> |r.value| == |out| + count - j && |KeyData(r.value)| <= |keys|
    decreases count - j
  {
    hide KeyData, Slice, EntryAt;
    if j < count {
      var p := EntryAt(nd, keys, pos, count, j, koff);
      if p.Ok? {
        OneKeyWithin(nd, keys, pos, count, j, koff, out);
        KeysWithin(nd, keys, pos, count, j + 1, koff + p.value.keyLen, out + [p.value.entry]);
      }
    }
  }

  lemma OneKeyWithin(nd: bytes, keys: bytes, pos: nat, count: nat, j: nat, koff: nat, out: seq<Entry>)
    requires EntryAt(nd, keys, pos, count, j, koff).Ok? && |KeyData(out)| <= koff && |KeyData(out)| <= |keys|
    ensures var p := EntryAt(nd, keys, pos, count, j, koff).value;
            |KeyData(out + [p.entry])| <= koff + p.keyLen && |KeyData(out + [p.entry])| <= |keys|
  {
    hide KeyData;
    var e := EntryAt(nd, keys, pos, count, j, koff).value.entry;
    KeyDataAppend(out, [e]);
    KeyDataOne(e);
  }

  /** For any block size: a node reads back exactly when its 16-bit counters do not wrap. */
  lemma NodeReadsIff(es: seq<Entry>, left: int, right: int, overflow: int, blk: nat)
    requires Fits(es, blk) && ValuesInRange(es)
    ensures NodeEntries(NodeBytes(es, left, right, overflow, blk)) == Ok(es) <==> SmallNode(es)
  {
    hide NodeBytes, EntriesFrom, ValuesInRange, Fits, KeyData, LensPos, U16;
    var nd := NodeBytes(es, left, right, overflow, blk);
    NodeParts(es, left, right, overflow, blk);
    if SmallNode(es) {
      NodeRoundTrip(nd, es, left, right, overflow);
    } else {
      assert FieldAt(nd, 24, Encode(|es|, 2)) && FieldAt(nd, 26, Encode(|KeyData(es)|, 2));
      ReadWrapped(nd, 24, |es|);
      ReadWrapped(nd, 26, |KeyData(es)|);
      var count, klen := |es| % 0x1_0000, |KeyData(es)| % 0x1_0000;
      NoKeyData();
      KeysWithin(nd, Slice(nd, 28, 28 + klen), KeyAlign(28 + klen), count, 0, 0, []);
      SliceShort(nd, 28, klen);
    }
  }

  lemma SliceShort(nd: bytes, o: nat, n: nat)
    ensures |Slice(nd, o, o + n)| <= n
  {
  }

  lemma ReadWrapped(b: bytes, o: nat, x: nat)
    requires FieldAt(b, o, Encode(x, 2))
    ensures U16(b, o) == Ok(x % 0x1_0000)
  {
    hide Encode, Decode;
    var t := DecodeEncode(x, 2);
    Pow256Values();
  }

  lemma LinksRead(nd: bytes, n: nat, klen: nat, left: int, right: int, overflow: int)
    requires HeaderAt(nd, n, klen, left, right, overflow)
    requires InI64(left) && InI64(right) && InI64(overflow)
    ensures I64(nd, 0) == Ok(left) && I64(nd, 8) == Ok(right) && I64(nd, 16) == Ok(overflow)
  {
    ReadI64(nd, 0, left);
    ReadI64(nd, 8, right);
    ReadI64(nd, 16, overflow);
  }

  lemma FitsSmall(es: seq<Entry>, blk: nat)
    requires ValidBlk(blk) && Fits(es, blk)
    ensures SmallNode(es)
  {
  }

  ghost predicate InI64(x: int)
  {
    -MAX_I64 <= x < MAX_I64
  }

  /** What the readers learn from a page holding a written node. */
  ghost predicate PageReads(nd: bytes, es: seq<Entry>, left: int, right: int, overflow: int)
  {
    && GetLeaf(nd) == Ok(ParsedLeaf(es, right))
    && DumpNode(nd) == Ok(ParsedNode(left, right, overflow, es))
    && (overflow == NULL_LINK ==> GetStep(nd) == Ok(AtLeaf))
    && (overflow != NULL_LINK && es != [] ==> GetStep(nd) == Ok(ToChild(es[0].value)))
  }

  lemma NodeReads(nd: bytes, es: seq<Entry>, left: int, right: int, overflow: int, blk: nat)
    requires ValidBlk(blk) && Node(es, left, right, overflow, blk) == Ok(nd)
    requires ValuesInRange(es) && InI64(left) && InI64(right) && InI64(overflow)
    ensures PageReads(nd, es, left, right, overflow)
  {
    hide NodeBytes, NodeEntries, HeaderAt, EntriesAt, ValuesInRange, I64, LensPos, KeyData, SmallNode, U16;
    NodeParts(es, left, right, overflow, blk);
    FitsSmall(es, blk);
    NodeRoundTrip(nd, es, left, right, overflow);
    LinksRead(nd, |es|, |KeyData(es)|, left, right, overflow);
    if es != [] {
      FirstValueRead(nd, es);
      StepRead(nd, es, left, right, overflow);
    }
  }

  lemma FirstValueRead(nd: bytes, es: seq<Entry>)
    requires EntriesAt(nd, es) && ValuesInRange(es) && es != []
    ensures I64(nd, LensPos(es) + 2 * |es|) == Ok(es[0].value)
  {
    assert FieldAt(nd, LensPos(es) + 2 * |es| + 8 * 0, Encode(es[0].value, 8));
    ReadI64(nd, LensPos(es) + 2 * |es|, es[0].value);
  }

  lemma StepRead(nd: bytes, es: seq<Entry>, left: int, right: int, overflow: int)
    requires HeaderAt(nd, |es|, |KeyData(es)|, left, right, overflow) && I64(nd, 16) == Ok(overflow)
    requires SmallNode(es) && es != [] && I64(nd, LensPos(es) + 2 * |es|) == Ok(es[0].value)
    ensures overflow != NULL_LINK ==> GetStep(nd) == Ok(ToChild(es[0].value))
  {
    ReadU16(nd, 24, |es|);
    ReadU16(nd, 26, |KeyData(es)|);
  }

  // ---------------------------------------------------------------------------
  // The stream
  // ---------------------------------------------------------------------------

  lemma PageAt(pages: seq<bytes>, blk: nat, i: nat)
    requires Uniform(pages, blk) && i < |pages|
    ensures Page(Flatten(pages), i * blk, blk) == pages[i]
  {
    UniformAt(pages, blk, i);
    assert blk * i == i * blk;
  }

  lemma HeaderFields(depth: nat, dataType: nat, maxSize: nat, blk: nat)
    requires ValidBlk(blk)
    ensures var h := TreeHeader(depth, dataType, maxSize, blk);
            && FieldAt(h, 0, Encode(BTREE_MAGIC, 4)) && FieldAt(h, 4, Encode(blk, 4))
            && FieldAt(h, 8, Encode(depth, 4)) && FieldAt(h, 16, Encode(blk, 8))
  {
    hide Encode;
  }

  lemma HeaderReads(stream: bytes, depth: nat, dataType: nat, maxSize: nat, blk: nat)
    requires ValidBlk(blk) && depth <= 2 && TreeHeader(depth, dataType, maxSize, blk) <= stream
    ensures U32(stream, 0) == Ok(BTREE_MAGIC)
    ensures U32(stream, 4) == Ok(blk) && U32(stream, 8) == Ok(depth)
    ensures I64(stream, 16) == Ok(blk)
  {
    var h := TreeHeader(depth, dataType, maxSize, blk);
    HeaderFields(depth, dataType, maxSize, blk);
    FieldInPrefix(h, stream, 0, Encode(BTREE_MAGIC, 4));
    FieldInPrefix(h, stream, 4, Encode(blk, 4));
    FieldInPrefix(h, stream, 8, Encode(depth, 4));
    FieldInPrefix(h, stream, 16, Encode(blk, 8));
    ReadU32(stream, 0, BTREE_MAGIC);
    ReadU32(stream, 4, blk);
    ReadU32(stream, 8, depth);
    ReadI64(stream, 16, blk);
  }

  lemma {:induction false} FlattenInRange(cs: seq<seq<Entry>>, i: nat)
    requires ValuesInRange(Flatten(cs)) && i < |cs|
    ensures ValuesInRange(cs[i])
  {
    var s := Flatten(cs);
    assert s == cs[0] + Flatten(cs[1..]);
    if i == 0 {
      forall k | 0 <= k < |cs[0]|
        ensures -MAX_I64 <= cs[0][k].value < MAX_I64
      {
        assert cs[0][k] == s[k];
      }
    } else {
      var t := Flatten(cs[1..]);
      forall k | 0 <= k < |t|
        ensures -MAX_I64 <= t[k].value < MAX_I64
      {
        assert t[k] == s[|cs[0]| + k];
      }
      FlattenInRange(cs[1..], i - 1);
    }
  }

  /** Leaf offsets are small and increasing. */
  lemma OffsetBounds(i: nat, j: nat, blk: nat)
    requires ValidBlk(blk) && i < j <= 7000
    ensures 2 * blk <= LeafOffset(i, blk) < LeafOffset(j, blk) < MAX_I64
  {
    MulLe(2, 2 + i, blk);
    MulLe(2 + i + 1, 2 + j, blk);
    MulLe(2 + j, 7002, blk);
    assert (2 + i + 1) * blk == (2 + i) * blk + blk;
  }

  /** The separators fit one root, so there are few leaves: at most 6551 of them, and at most
      3274 while blocks are no larger than 32 KiB. */
  lemma FewLeaves(chunks: seq<seq<Entry>>, blk: nat)
    requires ValidBlk(blk) && NoEmpty(chunks) && |chunks| >= 1
    requires Fits(Separators(chunks, blk), blk)
    ensures |chunks| <= 6551
    ensures blk <= 0x8000 ==> |chunks| <= 3274
  {
  }

  /** What the readers see in leaf `i` of a depth-2 stream. */
  ghost predicate LeafReads(page: bytes, chunks: seq<seq<Entry>>, i: nat, blk: nat)
    requires i < |chunks|
  {
    PageReads(page, chunks[i], LeftLink(i, blk), RightLink(|chunks|, i, blk), NULL_LINK)
  }

  lemma LeafPageReads(page: bytes, chunks: seq<seq<Entry>>, i: nat, blk: nat)
    requires ValidBlk(blk) && |chunks| <= 6551 && i < |chunks|
    requires LeafPage(chunks, i, blk) == Ok(page) && ValuesInRange(chunks[i])
    ensures LeafReads(page, chunks, i, blk)
  {
    if i > 0 {
      OffsetBounds(i - 1, i, blk);
    }
    if i + 1 < |chunks| {
      OffsetBounds(i, i + 1, blk);
      OffsetBounds(i + 1, i + 2, blk);
    }
    NodeReads(page, chunks[i], LeftLink(i, blk), RightLink(|chunks|, i, blk), NULL_LINK, blk);
  }

  /** Leaf offsets in chain order; leaf `k` links to leaf `k + 1`. */
  ghost predicate ChainOffsets(offs: seq<int>)
  {
    && (forall k :: 0 <= k < |offs| ==> offs[k] != NULL_LINK)
    && (forall j, k :: 0 <= j < k < |offs| ==> offs[j] < offs[k])
  }

  ghost function NextOffset(offs: seq<int>, k: nat): int
  {
    if k + 1 < |offs| then offs[k + 1] else NULL_LINK
  }

  /** `befs_get` collects the leaves from leaf `i` on. */
  lemma {:induction false} GetChainReads(read: int -> Result<ParsedLeaf>, chunks: seq<seq<Entry>>, offs: seq<int>,
                                         i: nat, cap: nat, out: seq<Entry>)
    requires ChainOffsets(offs) && |offs| == |chunks|
    requires forall k :: 0 <= k < |chunks| ==> read(offs[k]) == Ok(ParsedLeaf(chunks[k], NextOffset(offs, k)))
    requires i < |chunks| && |chunks| - i <= cap
    ensures GetChain(read, offs[i], cap, out) == Ok(out + Flatten(chunks[i..]))
    decreases |chunks| - i
  {
    FlattenStep(out, chunks, i);
    assert read(offs[i]) == Ok(ParsedLeaf(chunks[i], NextOffset(offs, i)));
    if i + 1 < |chunks| {
      GetChainReads(read, chunks, offs, i + 1, cap - 1, out + chunks[i]);
    }
  }

  /** `befs_dump` collects the leaves from leaf `i` on exactly when its guard of 4097 leaves
      is not passed. */
  lemma {:induction false} DumpChainReads(read: int -> Result<ParsedNode>, chunks: seq<seq<Entry>>, offs: seq<int>,
                                          i: nat, seen: set<int>, out: seq<Entry>)
    requires ChainOffsets(offs) && |offs| == |chunks| && i < |chunks|
    requires forall k :: 0 <= k < |chunks| ==>
               read(offs[k]).Ok? && read(offs[k]).value.entries == chunks[k] && read(offs[k]).value.right == NextOffset(offs, k)
    requires forall o :: o in seen ==> o < offs[i]
    requires |seen| <= DUMP_SEEN_CAP + 1
    ensures DumpChain(read, offs[i], seen, out)
         == if |seen| + |chunks| - i <= DUMP_SEEN_CAP + 1 then Ok(out + Flatten(chunks[i..])) else Err(ChainTooLong)
    decreases |chunks| - i
  {
    FlattenStep(out, chunks, i);
    var off := offs[i];
    assert off !in seen && off != NULL_LINK;
    if |seen| <= DUMP_SEEN_CAP {
      assert |seen + {off}| == |seen| + 1;
      if i + 1 < |chunks| {
        DumpChainReads(read, chunks, offs, i + 1, seen + {off}, out + chunks[i]);
      }
    }
  }

  // Depth 1 ----------------------------------------------------------------------

  lemma ShallowReads(dataType: nat, es: seq<Entry>, blk: nat)
    requires ValidBlk(blk) && Chunks(es, blk).Ok? && |Chunks(es, blk).value| == 1
    requires Stream(dataType, es, blk).Ok? && ValuesInRange(es)
    ensures GetEntries(Stream(dataType, es, blk).value, blk) == Ok(es)
    ensures DumpEntries(Stream(dataType, es, blk).value) == Ok(es)
  {
    var pages := Pages(dataType, es, blk).value;
    var stream := Flatten(pages);
    ShallowPages(dataType, es, blk);
    HeaderReads(stream, 1, dataType, 2 * blk, blk);
    PageAt(pages, blk, 1);
    var page := pages[1];
    NodeReads(page, es, NULL_LINK, NULL_LINK, NULL_LINK, blk);
    assert Page(stream, blk, blk) == page by {
      assert 1 * blk == blk;
    }
    assert StepReader(stream, blk)(blk) == Ok(AtLeaf);
    assert LeafReader(stream, blk)(blk) == Ok(ParsedLeaf(es, NULL_LINK));
    assert NodeReader(stream, blk)(blk) == Ok(ParsedNode(NULL_LINK, NULL_LINK, NULL_LINK, es));
    ShallowWalks(StepReader(stream, blk), LeafReader(stream, blk), NodeReader(stream, blk), blk, es);
  }

  lemma ShallowWalks(step: int -> Result<Step>, leaf: int -> Result<ParsedLeaf>, node: int -> Result<ParsedNode>,
                     off: nat, es: seq<Entry>)
    requires step(off) == Ok(AtLeaf) && leaf(off) == Ok(ParsedLeaf(es, NULL_LINK))
    requires node(off) == Ok(ParsedNode(NULL_LINK, NULL_LINK, NULL_LINK, es))
    ensures GetDescend(step, off, GET_DEPTH_CAP) == Ok(off)
    ensures GetChain(leaf, off, GET_CHAIN_CAP, []) == Ok(es)
    ensures DumpDescend(node, off, 1) == Ok(off)
    ensures DumpChain(node, off, {}, []) == Ok(es)
  {
    assert [] + es == es;
    assert DumpChain(node, NULL_LINK, {} + {off}, [] + es) == Ok(es);
  }

  lemma ShallowPages(dataType: nat, es: seq<Entry>, blk: nat)
    requires ValidBlk(blk) && Chunks(es, blk).Ok? && |Chunks(es, blk).value| == 1
    requires Stream(dataType, es, blk).Ok?
    ensures var pages := Pages(dataType, es, blk).value;
            && |pages| == 2
            && Node(es, NULL_LINK, NULL_LINK, NULL_LINK, blk) == Ok(pages[1])
            && TreeHeader(1, dataType, 2 * blk, blk) <= Flatten(pages)
  {
    var chunks := Chunks(es, blk).value;
    GreedyFlatten([], es, blk);
    assert [] + es == es;
    assert Flatten(chunks) == chunks[0] + Flatten<Entry>([]);
    assert chunks[0] == es;
  }

  // Depth 2 ----------------------------------------------------------------------

  /** The pages of a depth-2 stream. */
  ghost predicate DeepPages(pages: seq<bytes>, dataType: nat, chunks: seq<seq<Entry>>, blk: nat)
    requires ValidBlk(blk)
  {
    && |chunks| >= 2 && NoEmpty(chunks) && |pages| == 2 + |chunks| && Uniform(pages, blk)
    && Fits(Separators(chunks, blk), blk)
    && pages[0] == TreeHeader(2, dataType, LeafOffset(|chunks|, blk), blk)
    && Node(Separators(chunks, blk), NULL_LINK, NULL_LINK, LeafOffset(|chunks| - 1, blk), blk) == Ok(pages[1])
    && forall k :: 0 <= k < |chunks| ==> LeafPage(chunks, k, blk) == Ok(pages[2 + k])
  }

  lemma StreamIsDeep(dataType: nat, es: seq<Entry>, blk: nat)
    requires ValidBlk(blk) && Stream(dataType, es, blk).Ok? && |Chunks(es, blk).value| >= 2
    ensures DeepPages(Pages(dataType, es, blk).value, dataType, Chunks(es, blk).value, blk)
  {
    var chunks, pages := Chunks(es, blk).value, Pages(dataType, es, blk).value;
    forall k | 0 <= k < |chunks|
      ensures LeafPage(chunks, k, blk) == Ok(pages[2 + k])
    {
      LeafPagesAt(chunks, 0, blk, k);
    }
  }

  /** What the readers see in the root of a depth-2 stream. */
  ghost predicate RootReads(root: bytes, chunks: seq<seq<Entry>>, blk: nat)
  {
    && |chunks| >= 2 && NoEmpty(chunks)
    && PageReads(root, Separators(chunks, blk), NULL_LINK, NULL_LINK, LeafOffset(|chunks| - 1, blk))
  }

  /** What the readers see at each offset of a depth-2 stream. */
  ghost predicate DeepView(stream: bytes, chunks: seq<seq<Entry>>, blk: nat)
  {
    && 2 <= |chunks| <= 6551
    && U32(stream, 0) == Ok(BTREE_MAGIC) && U32(stream, 4) == Ok(blk) && U32(stream, 8) == Ok(2)
    && I64(stream, 16) == Ok(blk)
    && RootReads(Page(stream, blk, blk), chunks, blk)
    && forall k :: 0 <= k < |chunks| ==> LeafReads(Page(stream, LeafOffset(k, blk), blk), chunks, k, blk)
  }

  lemma RootPageReads(pages: seq<bytes>, dataType: nat, chunks: seq<seq<Entry>>, blk: nat)
    requires ValidBlk(blk) && DeepPages(pages, dataType, chunks, blk)
    ensures RootReads(pages[1], chunks, blk)
  {
    var seps := Separators(chunks, blk);
    FewLeaves(chunks, blk);
    forall i | 0 <= i < |seps|
      ensures -MAX_I64 <= seps[i].value < MAX_I64
    {
      OffsetBounds(i, i + 1, blk);
    }
    OffsetBounds(|chunks| - 1, |chunks|, blk);
    NodeReads(pages[1], seps, NULL_LINK, NULL_LINK, LeafOffset(|chunks| - 1, blk), blk);
    assert seps[0].value == LeafOffset(0, blk);
  }

  lemma DeepStreamView(pages: seq<bytes>, dataType: nat, chunks: seq<seq<Entry>>, blk: nat)
    requires ValidBlk(blk) && DeepPages(pages, dataType, chunks, blk)
    requires ValuesInRange(Flatten(chunks))
    ensures DeepView(Flatten(pages), chunks, blk)
  {
    var stream := Flatten(pages);
    FewLeaves(chunks, blk);
    assert pages[0] <= stream;
    HeaderReads(stream, 2, dataType, LeafOffset(|chunks|, blk), blk);
    assert Page(stream, blk, blk) == pages[1] by {
      PageAt(pages, blk, 1);
      assert 1 * blk == blk;
    }
    RootPageReads(pages, dataType, chunks, blk);
    forall k | 0 <= k < |chunks|
      ensures LeafReads(Page(stream, LeafOffset(k, blk), blk), chunks, k, blk)
    {
      PageAt(pages, blk, 2 + k);
      FlattenInRange(chunks, k);
      LeafPageReads(pages[2 + k], chunks, k, blk);
    }
  }

  ghost function Offsets(m: nat, blk: nat): (offs: seq<int>)
    ensures |offs| == m && forall k :: 0 <= k < m ==> offs[k] == LeafOffset(k, blk)
  {
    seq(m, k => if k < 0 then 0 else LeafOffset(k, blk))
  }

  lemma OffsetsInOrder(m: nat, blk: nat)
    requires ValidBlk(blk) && m <= 6551
    ensures ChainOffsets(Offsets(m, blk))
    ensures forall k :: 0 <= k < m ==> RightLink(m, k, blk) == NextOffset(Offsets(m, blk), k)
  {
    var offs := Offsets(m, blk);
    forall j, k | 0 <= j < k < m
      ensures offs[j] < offs[k]
    {
      OffsetBounds(j, k, blk);
    }
    forall k | 0 <= k < m
      ensures offs[k] != NULL_LINK
    {
      OffsetBounds(k, k + 1, blk);
    }
  }

  /** The pages `befs_get` parses, by offset. */
  ghost predicate GetReads(step: int -> Result<Step>, leaf: int -> Result<ParsedLeaf>, root: int,
                           chunks: seq<seq<Entry>>, offs: seq<int>)
  {
    && |offs| == |chunks| >= 1
    && step(root) == Ok(ToChild(offs[0])) && step(offs[0]) == Ok(AtLeaf)
    && forall k :: 0 <= k < |chunks| ==> leaf(offs[k]) == Ok(ParsedLeaf(chunks[k], NextOffset(offs, k)))
  }

  /** The nodes `befs_dump` parses, by offset. */
  ghost predicate DumpReads(read: int -> Result<ParsedNode>, root: int, chunks: seq<seq<Entry>>, offs: seq<int>)
  {
    && |offs| == |chunks| >= 1
    && read(root).Ok? && read(root).value.overflow != NULL_LINK
    && read(root).value.entries != [] && read(root).value.entries[0].value == offs[0]
    && forall k :: 0 <= k < |chunks| ==>
         && read(offs[k]).Ok? && read(offs[k]).value.overflow == NULL_LINK
         && read(offs[k]).value.entries == chunks[k] && read(offs[k]).value.right == NextOffset(offs, k)
  }

  lemma FirstSeparator(chunks: seq<seq<Entry>>, blk: nat)
    requires |chunks| >= 2 && NoEmpty(chunks)
    ensures Separators(chunks, blk) != [] && Separators(chunks, blk)[0].value == LeafOffset(0, blk)
  {
  }

  lemma DeepGetReads(stream: bytes, chunks: seq<seq<Entry>>, blk: nat)
    requires ValidBlk(blk) && DeepView(stream, chunks, blk)
    ensures GetReads(StepReader(stream, blk), LeafReader(stream, blk), blk, chunks, Offsets(|chunks|, blk))
  {
    hide GetLeaf, GetStep, DumpNode, Page, Offsets, Separators;
    var offs := Offsets(|chunks|, blk);
    OffsetsInOrder(|chunks|, blk);
    OffsetBounds(|chunks| - 1, |chunks|, blk);
    FirstSeparator(chunks, blk);
    assert LeafReads(Page(stream, offs[0], blk), chunks, 0, blk);
    forall k | 0 <= k < |chunks|
      ensures LeafReader(stream, blk)(offs[k]) == Ok(ParsedLeaf(chunks[k], NextOffset(offs, k)))
    {
      assert LeafReads(Page(stream, LeafOffset(k, blk), blk), chunks, k, blk);
    }
  }

  lemma DeepDumpReads(stream: bytes, chunks: seq<seq<Entry>>, blk: nat)
    requires ValidBlk(blk) && DeepView(stream, chunks, blk)
    ensures DumpReads(NodeReader(stream, blk), blk, chunks, Offsets(|chunks|, blk))
  {
    hide GetLeaf, GetStep, DumpNode, Page, Offsets, Separators;
    var offs, read := Offsets(|chunks|, blk), NodeReader(stream, blk);
    OffsetsInOrder(|chunks|, blk);
    OffsetBounds(|chunks| - 1, |chunks|, blk);
    FirstSeparator(chunks, blk);
    forall k | 0 <= k < |chunks|
      ensures read(offs[k]) == Ok(ParsedNode(LeftLink(k, blk), NextOffset(offs, k), NULL_LINK, chunks[k]))
    {
      assert LeafReads(Page(stream, LeafOffset(k, blk), blk), chunks, k, blk);
    }
  }

  lemma DeepGetWalk(step: int -> Result<Step>, leaf: int -> Result<ParsedLeaf>, root: int,
                    chunks: seq<seq<Entry>>, offs: seq<int>)
    requires GetReads(step, leaf, root, chunks, offs) && ChainOffsets(offs) && |chunks| <= GET_CHAIN_CAP
    ensures GetDescend(step, root, GET_DEPTH_CAP) == Ok(offs[0])
    ensures GetChain(leaf, offs[0], GET_CHAIN_CAP, []) == Ok(Flatten(chunks))
  {
    assert GetDescend(step, offs[0], GET_DEPTH_CAP - 1) == Ok(offs[0]);
    GetChainReads(leaf, chunks, offs, 0, GET_CHAIN_CAP, []);
    assert chunks[0..] == chunks && [] + Flatten(chunks) == Flatten(chunks);
  }

  lemma DeepGet(stream: bytes, chunks: seq<seq<Entry>>, blk: nat)
    requires ValidBlk(blk) && DeepView(stream, chunks, blk)
    ensures GetEntries(stream, blk) == Ok(Flatten(chunks))
  {
    DeepGetReads(stream, chunks, blk);
    OffsetsInOrder(|chunks|, blk);
    DeepGetWalk(StepReader(stream, blk), LeafReader(stream, blk), blk, chunks, Offsets(|chunks|, blk));
  }

  lemma DeepDumpWalk(read: int -> Result<ParsedNode>, root: int, chunks: seq<seq<Entry>>, offs: seq<int>)
    requires DumpReads(read, root, chunks, offs) && ChainOffsets(offs)
    ensures DumpDescend(read, root, 2) == Ok(offs[0])
    ensures DumpChain(read, offs[0], {}, [])
         == if |chunks| <= DUMP_SEEN_CAP + 1 then Ok(Flatten(chunks)) else Err(ChainTooLong)
  {
    assert DumpDescend(read, offs[0], 1) == Ok(offs[0]);
    DumpChainReads(read, chunks, offs, 0, {}, []);
    assert chunks[0..] == chunks && [] + Flatten(chunks) == Flatten(chunks);
  }

  lemma DeepDump(stream: bytes, chunks: seq<seq<Entry>>, blk: nat)
    requires ValidBlk(blk) && DeepView(stream, chunks, blk)
    ensures DumpEntries(stream) == if |chunks| <= DUMP_SEEN_CAP + 1 then Ok(Flatten(chunks)) else Err(ChainTooLong)
  {
    hide DumpChain, DumpDescend, Flatten, LeafReads, RootReads, NodeReader, DumpReads, Offsets, ChainOffsets, I64, U32;
    DeepDumpReads(stream, chunks, blk);
    OffsetsInOrder(|chunks|, blk);
    DeepDumpWalk(NodeReader(stream, blk), blk, chunks, Offsets(|chunks|, blk));
  }

  // ---------------------------------------------------------------------------
  // The round trips
  // ---------------------------------------------------------------------------

  /** `befs_get` inverts `btree_stream`: on every accepted list, at either depth, it returns
      that list, and neither its descent cap nor its chain cap is reached. */
  lemma GetInvertsStream(dataType: nat, es: seq<Entry>, blk: nat)
    requires ValidBlk(blk) && Stream(dataType, es, blk).Ok? && ValuesInRange(es)
    ensures GetEntries(Stream(dataType, es, blk).value, blk) == Ok(es)
  {
    var chunks := Chunks(es, blk).value;
    if |chunks| == 1 {
      ShallowReads(dataType, es, blk);
    } else {
      GreedyFlatten([], es, blk);
      assert [] + es == es;
      StreamIsDeep(dataType, es, blk);
      DeepStreamView(Pages(dataType, es, blk).value, dataType, chunks, blk);
      DeepGet(Stream(dataType, es, blk).value, chunks, blk);
    }
  }

  /** `befs_dump` inverts `btree_stream` exactly on the trees of at most 4097 leaves; larger
      ones, which need blocks above 32 KiB, stop it with "btree leaf chain loops". */
  lemma DumpInvertsStream(dataType: nat, es: seq<Entry>, blk: nat)
    requires ValidBlk(blk) && Stream(dataType, es, blk).Ok? && ValuesInRange(es)
    ensures DumpEntries(Stream(dataType, es, blk).value) == Ok(es) <==> |Chunks(es, blk).value| <= DUMP_SEEN_CAP + 1
    ensures blk <= 0x8000 ==> DumpEntries(Stream(dataType, es, blk).value) == Ok(es)
  {
    var chunks := Chunks(es, blk).value;
    if |chunks| == 1 {
      ShallowReads(dataType, es, blk);
    } else {
      GreedyFlatten([], es, blk);
      assert [] + es == es;
      StreamIsDeep(dataType, es, blk);
      DeepStreamView(Pages(dataType, es, blk).value, dataType, chunks, blk);
      DeepDump(Stream(dataType, es, blk).value, chunks, blk);
      FewLeaves(chunks, blk);
    }
  }

  // ---------------------------------------------------------------------------
  // Links and header
  // ---------------------------------------------------------------------------

  /** The leaves at these offsets hold these chunks and are linked both ways. */
  ghost predicate DoublyLinked(read: int -> Result<ParsedNode>, offs: seq<int>, chunks: seq<seq<Entry>>)
  {
    && |offs| == |chunks|
    && forall k :: 0 <= k < |offs| ==>
         read(offs[k]) == Ok(ParsedNode(if k > 0 then offs[k - 1] else NULL_LINK, NextOffset(offs, k), NULL_LINK, chunks[k]))
  }

  /** The leaves of a stream are a doubly linked list: each left link is the offset of the leaf whose
      right link leads here, and only the first leaf has none. */
  lemma LeavesDoublyLinked(dataType: nat, es: seq<Entry>, blk: nat) returns (offs: seq<int>)
    requires ValidBlk(blk) && Stream(dataType, es, blk).Ok? && ValuesInRange(es)
    ensures DoublyLinked(NodeReader(Stream(dataType, es, blk).value, blk), offs, Chunks(es, blk).value)
    ensures ChainOffsets(offs)
  {
    hide NodeReader, Offsets, Pages, Chunks, DeepPages, DeepView, DoublyLinked, ValuesInRange;
    StreamParts(dataType, es, blk);
    var chunks, stream := Chunks(es, blk).value, Stream(dataType, es, blk).value;
    if |chunks| == 1 {
      offs := [blk];
      ShallowNode(dataType, es, blk);
      assert DoublyLinked(NodeReader(stream, blk), [blk], [es]) by {
        OneLeafLinked(NodeReader(stream, blk), blk, es);
      }
    } else {
      offs := Offsets(|chunks|, blk);
      StreamIsDeep(dataType, es, blk);
      FewLeavesDeep(dataType, es, blk);
      DeepStreamView(Pages(dataType, es, blk).value, dataType, chunks, blk);
      DeepLinks(stream, chunks, blk);
      OffsetsInOrder(|chunks|, blk);
    }
  }

  lemma OneLeafLinked(read: int -> Result<ParsedNode>, off: int, es: seq<Entry>)
    requires read(off) == Ok(ParsedNode(NULL_LINK, NULL_LINK, NULL_LINK, es))
    ensures DoublyLinked(read, [off], [es])
  {
    var offs, chunks := [off], [es];
    assert NextOffset(offs, 0) == NULL_LINK;
    forall k | 0 <= k < |offs|
      ensures k == 0 && offs[k] == off && chunks[k] == es
    {
    }
  }

  /** An accepted stream is made of its chunks. */
  lemma StreamParts(dataType: nat, es: seq<Entry>, blk: nat)
    requires ValidBlk(blk) && Stream(dataType, es, blk).Ok?
    ensures Chunks(es, blk).Ok? && Pages(dataType, es, blk).Ok?
    ensures var chunks := Chunks(es, blk).value;
            && |chunks| >= 1 && Flatten(chunks) == es && (|chunks| == 1 ==> chunks == [es])
            && Stream(dataType, es, blk).value == Flatten(Pages(dataType, es, blk).value)
  {
    hide Node, LeafPages, Separators;
    var chunks := Chunks(es, blk).value;
    GreedyFlatten([], es, blk);
    assert [] + es == es;
    StreamLength(dataType, es, blk);
    if |chunks| == 1 {
      assert Flatten(chunks) == chunks[0] + Flatten<Entry>([]);
      assert chunks[0] == es;
    }
  }

  lemma FewLeavesDeep(dataType: nat, es: seq<Entry>, blk: nat)
    requires ValidBlk(blk) && Stream(dataType, es, blk).Ok? && |Chunks(es, blk).value| >= 2
    ensures |Chunks(es, blk).value| <= 6551 && |Stream(dataType, es, blk).value| == LeafOffset(|Chunks(es, blk).value|, blk) < MAX_I64
    ensures TreeHeader(2, dataType, LeafOffset(|Chunks(es, blk).value|, blk), blk) <= Stream(dataType, es, blk).value
  {
    hide TreeHeader, Node, LeafPages, LeafPage, Chunks, Separators;
    var pages, m := Pages(dataType, es, blk).value, |Chunks(es, blk).value|;
    StreamIsDeep(dataType, es, blk);
    FewLeaves(Chunks(es, blk).value, blk);
    UniformLength(pages, blk);
    assert blk * (2 + m) == (2 + m) * blk;
    MulLe(2 + m, 6553, blk);
    assert pages[0] <= Flatten(pages);
  }

  lemma DeepLinks(stream: bytes, chunks: seq<seq<Entry>>, blk: nat)
    requires ValidBlk(blk) && DeepView(stream, chunks, blk)
    ensures DoublyLinked(NodeReader(stream, blk), Offsets(|chunks|, blk), chunks)
  {
    hide GetLeaf, GetStep, DumpNode, Page, Offsets, Separators;
    var offs, read := Offsets(|chunks|, blk), NodeReader(stream, blk);
    OffsetsInOrder(|chunks|, blk);
    forall k | 0 <= k < |chunks|
      ensures read(offs[k]) == Ok(ParsedNode(if k > 0 then offs[k - 1] else NULL_LINK, NextOffset(offs, k), NULL_LINK, chunks[k]))
    {
      assert LeafReads(Page(stream, LeafOffset(k, blk), blk), chunks, k, blk);
    }
  }

  lemma ShallowNode(dataType: nat, es: seq<Entry>, blk: nat)
    requires ValidBlk(blk) && Stream(dataType, es, blk).Ok? && |Chunks(es, blk).value| == 1 && ValuesInRange(es)
    ensures NodeReader(Stream(dataType, es, blk).value, blk)(blk) == Ok(ParsedNode(NULL_LINK, NULL_LINK, NULL_LINK, es))
  {
    hide Node, NodeEntries, Pages, Chunks, ValuesInRange, Flatten, TreeHeader, DumpNode, Page;
    StreamParts(dataType, es, blk);
    var pages := Pages(dataType, es, blk).value;
    ShallowPages(dataType, es, blk);
    PageAt(pages, blk, 1);
    assert 1 * blk == blk;
    NodeReads(pages[1], es, NULL_LINK, NULL_LINK, NULL_LINK, blk);
  }

  /** The header says the depth and the key type, that no node is free, and how long the stream is. */
  lemma StreamHeader(dataType: nat, es: seq<Entry>, blk: nat)
    requires ValidBlk(blk) && Stream(dataType, es, blk).Ok? && dataType < 0x1_0000_0000
    ensures var s := Stream(dataType, es, blk).value;
            && U32(s, 0) == Ok(0x69F6C2E8) && U32(s, 4) == Ok(blk)
            && U32(s, 8) == Ok(if Fits(es, blk) then 1 else 2) && U32(s, 12) == Ok(dataType)
            && I64(s, 16) == Ok(blk) && I64(s, 24) == Ok(NULL_LINK) && I64(s, 32) == Ok(|s|)
  {
    hide TreeHeader, Node, Pages, Chunks, Flatten, U32, I64, Fits;
    StreamParts(dataType, es, blk);
    var s, m := Stream(dataType, es, blk).value, |Chunks(es, blk).value|;
    if m == 1 {
      ShallowPages(dataType, es, blk);
      UniformLength(Pages(dataType, es, blk).value, blk);
      HeaderReads(s, 1, dataType, 2 * blk, blk);
      HeaderTail(s, 1, dataType, 2 * blk, blk);
      NodeFits(es, blk);
    } else {
      FewLeavesDeep(dataType, es, blk);
      HeaderReads(s, 2, dataType, LeafOffset(m, blk), blk);
      HeaderTail(s, 2, dataType, LeafOffset(m, blk), blk);
      if Fits(es, blk) {
        OneChunk(es, blk);
      }
    }
  }

  lemma NodeFits(es: seq<Entry>, blk: nat)
    requires ValidBlk(blk) && Node(es, NULL_LINK, NULL_LINK, NULL_LINK, blk).Ok?
    ensures Fits(es, blk)
  {
  }

  lemma HeaderTail(stream: bytes, depth: nat, dataType: nat, maxSize: nat, blk: nat)
    requires ValidBlk(blk) && TreeHeader(depth, dataType, maxSize, blk) <= stream && dataType < 0x1_0000_0000 && maxSize < MAX_I64
    ensures U32(stream, 12) == Ok(dataType) && I64(stream, 24) == Ok(NULL_LINK) && I64(stream, 32) == Ok(maxSize)
  {
    var h := TreeHeader(depth, dataType, maxSize, blk);
    TailFields(depth, dataType, maxSize, blk);
    FieldInPrefix(h, stream, 12, Encode(dataType, 4));
    FieldInPrefix(h, stream, 24, Encode(NULL_LINK, 8));
    FieldInPrefix(h, stream, 32, Encode(maxSize, 8));
    ReadU32(stream, 12, dataType);
    ReadI64(stream, 24, NULL_LINK);
    ReadI64(stream, 32, maxSize);
  }

  lemma TailFields(depth: nat, dataType: nat, maxSize: nat, blk: nat)
    requires ValidBlk(blk)
    ensures var h := TreeHeader(depth, dataType, maxSize, blk);
            FieldAt(h, 12, Encode(dataType, 4)) && FieldAt(h, 24, Encode(NULL_LINK, 8)) && FieldAt(h, 32, Encode(maxSize, 8))
  {
    hide Encode;
  }

  // ---------------------------------------------------------------------------
  // A list that one reader returns and the other refuses
  // ---------------------------------------------------------------------------

  /** Two entries that fill a leaf of a 64 KiB block. */
  ghost function FullLeaf(): seq<Entry>
  {
    [Entry([0], 0), Entry(Zeros(65483), 0)]
  }

  lemma FullLeafFits()
    ensures Fits(FullLeaf(), 0x1_0000) && !Fits(FullLeaf() + [Entry([0], 0)], 0x1_0000)
  {
    hide Zeros;
    var a, b := Entry([0], 0), Entry(Zeros(65483), 0);
    assert FullLeaf() == [a] + [b];
    KeyDataOne(a);
    BudgetSnoc([a], b);
    KeyDataOne(b);
    KeyDataAppend([a], [b]);
    BudgetSnoc(FullLeaf(), a);
  }

  ghost function FullLeaves(m: nat): (cs: seq<seq<Entry>>)
    ensures |cs| == m && NoEmpty(cs)
  {
    seq(m, i => FullLeaf())
  }

  lemma ManySeparatorsFit(m: nat)
    requires 1 <= m <= 4098
    ensures Fits(Separators(FullLeaves(m), 0x1_0000), 0x1_0000)
  {
    hide FullLeaf, LeafOffset;
    var cs := FullLeaves(m);
    assert FullLeaf()[0].key == [0] by { FirstKey(); }
    var seps := Separators(cs, 0x1_0000);
    assert Uniform(Keys(seps), 1) by {
      assert forall i :: 0 <= i < |seps| ==> Keys(seps)[i] == cs[i + 1][0].key && cs[i + 1] == FullLeaf();
    }
    UniformLength(Keys(seps), 1);
  }

  lemma FirstKey()
    ensures FullLeaf() != [] && FullLeaf()[0].key == [0] && FullLeaf()[0] == Entry([0], 0)
  {
    hide Zeros;
  }

  /** 4098 full leaves: `tree_entries` returns the list, `btree_entries` gives up on it. */
  lemma TooManyLeavesForDump() returns (es: seq<Entry>)
    ensures Stream(BTREE_STRING, es, 0x1_0000).Ok? && ValuesInRange(es)
    ensures GetEntries(Stream(BTREE_STRING, es, 0x1_0000).value, 0x1_0000) == Ok(es)
    ensures DumpEntries(Stream(BTREE_STRING, es, 0x1_0000).value) != Ok(es)
  {
    hide FullLeaf, Stream, GetEntries, DumpEntries, Fits, Separators, Chunks;
    var cs, blk := FullLeaves(4098), 0x1_0000;
    es := Flatten(cs);
    FullLeafFits();
    FirstKey();
    TightChunks(cs, blk);
    AllFitEachFits(cs, blk);
    ManySeparatorsFit(4098);
    StreamAccepts(BTREE_STRING, es, blk);
    FullValues(4098);
    GetInvertsStream(BTREE_STRING, es, blk);
    DumpInvertsStream(BTREE_STRING, es, blk);
  }

  lemma {:induction false} FullValues(m: nat)
    ensures ValuesInRange(Flatten(FullLeaves(m)))
    decreases m
  {
    if m > 0 {
      FullValues(m - 1);
      assert FullLeaves(m)[1..] == FullLeaves(m - 1);
      assert Flatten(FullLeaves(m)) == FullLeaf() + Flatten(FullLeaves(m - 1));
      LeafValues();
    }
  }

  lemma LeafValues()
    ensures ValuesInRange(FullLeaf())
  {
    hide Zeros;
  }
}
