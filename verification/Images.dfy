/**
 The image under construction: `class Image` of `tools/mkbefs.py`, a flat buffer with a bump
 allocator and a bitmap.
 */
module Images {
  import opened Bytes
  import opened BPlusTree
  import opened BlockRuns
  import opened Bitmap
  import opened Volume

  const LOG_LEN: nat := 512

  lemma NextBlock(b: nat, blk: nat)
    ensures (b + 1) * blk == b * blk + blk
    ensures b * blk <= (b + 1) * blk
  {
  }

  /** `put`: assign to the slice of block `b`. */
  function Put(buf: bytes, b: nat, data: bytes, blk: nat): bytes
  {
    NextBlock(b, blk);
    Splice(buf, b * blk, (b + 1) * blk, data)
  }

  /** The block lies inside the buffer. */
  lemma BlockBounds(b: nat, n: nat, blk: nat)
    requires b < n
    ensures 0 <= b * blk <= (b + 1) * blk == b * blk + blk <= n * blk
  {
    MulLe(b + 1, n, blk);
  }

  /** Blocks do not overlap. */
  lemma BlocksApart(a: nat, b: nat, blk: nat)
    requires a < b
    ensures (a + 1) * blk <= b * blk
  {
    MulLe(a + 1, b, blk);
  }

  /** Putting one block changes that block and no other. */
  lemma PutReads(buf: bytes, nblocks: nat, b: nat, data: bytes, blk: nat, n: nat)
    requires |buf| >= nblocks * blk && b < nblocks && n < nblocks && |data| == blk
    ensures |Put(buf, b, data, blk)| == |buf|
    ensures BlockOf(Put(buf, b, data, blk), n, blk) == if n == b then data else BlockOf(buf, n, blk)
  {
    BlockBounds(b, nblocks, blk);
    BlockBounds(n, nblocks, blk);
    var out := Put(buf, b, data, blk);
    if n == b {
      assert out[b * blk..b * blk + blk] == data;
    } else if n < b {
      BlocksApart(n, b, blk);
      assert out[n * blk..(n + 1) * blk] == buf[n * blk..(n + 1) * blk];
    } else {
      BlocksApart(b, n, blk);
      assert out[n * blk..(n + 1) * blk] == buf[n * blk..(n + 1) * blk];
    }
  }

  /** A put keeps the image's length exactly when it is given one block of bytes; any other
      length moves everything behind it. */
  lemma PutKeepsLength(buf: bytes, nblocks: nat, b: nat, data: bytes, blk: nat)
    requires |buf| >= nblocks * blk && b < nblocks
    ensures |Put(buf, b, data, blk)| == |buf| - blk + |data|
    ensures |Put(buf, b, data, blk)| == |buf| <==> |data| == blk
  {
    BlockBounds(b, nblocks, blk);
  }

  /** The bitmap is flat: its block `g` describes allocation group `g` exactly for 1 KiB
      blocks, where one bitmap block has as many bits as a group has blocks. */
  lemma BitmapBlockIsGroup(blk: nat)
    requires ValidBlk(blk)
    ensures (forall b: nat :: b / (8 * blk) == b / GROUPSIZE) <==> blk == 1024
  {
    if forall b: nat :: b / (8 * blk) == b / GROUPSIZE {
      var b: nat := GROUPSIZE;
      assert b / (8 * blk) == b / GROUPSIZE == 1;
      assert 8 * blk <= GROUPSIZE;
    }
  }

  /** The bitmap has a bit for every block. */
  lemma BitmapCapacity(numBlocks: nat, blk: nat)
    requires ValidBlk(blk)
    ensures numBlocks <= 8 * ((numBlocks + GROUPSIZE - 1) / GROUPSIZE * blk)
  {
    var ags := (numBlocks + GROUPSIZE - 1) / GROUPSIZE;
    assert numBlocks <= ags * GROUPSIZE;
    MulLe(1024, blk, ags);
    assert ags * blk == blk * ags && 1024 * ags == ags * 1024;
  }

  /** The extents are disjoint and lie above the reserved area; they are counted in `used` and
      leave out exactly the holes. */
  ghost predicate Ledger(ledger: seq<Extent>, holes: set<nat>, reserved: nat, nextFree: nat, used: nat)
  {
    && InOrder(ledger, reserved, nextFree)
    && used == reserved + Total(ledger)
    && (forall b: nat :: reserved <= b < nextFree ==> (Covered(ledger, b) <==> b !in holes))
    && (forall b: nat :: Covered(ledger, b) ==> reserved <= b < nextFree)
  }

  /** A bump allocation extends the ledger by blocks that nobody holds. */
  lemma LedgerAlloc(ledger: seq<Extent>, holes: set<nat>, reserved: nat, nextFree: nat, used: nat, count: nat)
    requires Ledger(ledger, holes, reserved, nextFree, used)
    requires forall h :: h in holes ==> h < nextFree
    ensures Ledger(ledger + [Extent(nextFree, count)], holes, reserved, nextFree + count, used + count)
    ensures forall b: nat :: Inside(Extent(nextFree, count), b) ==> !Covered(ledger, b)
  {
    var e := Extent(nextFree, count);
    var after := ledger + [e];
    assert after[..|after| - 1] == ledger;
    InOrderNonEmpty(ledger, reserved, nextFree);
    forall b: nat
      ensures Covered(after, b) <==> Covered(ledger, b) || Inside(e, b)
    {
      CoveredSnoc(ledger, e, b);
    }
  }

  /** Passing over a block leaves it out of the ledger. */
  lemma LedgerSkip(ledger: seq<Extent>, holes: set<nat>, reserved: nat, nextFree: nat, used: nat)
    requires Ledger(ledger, holes, reserved, nextFree, used)
    ensures Ledger(ledger, holes + {nextFree}, reserved, nextFree + 1, used)
  {
    InOrderWider(ledger, reserved, nextFree, nextFree + 1);
  }

  class Image {
    const blk: nat
    const numBlocks: nat
    const numAgs: nat
    const reserved: nat
    var buf: bytes
    var bitmap: bytes
    var nextFree: nat
    var used: nat
    /** Every allocation made so far. */
    ghost var ledger: seq<Extent>
    /** Blocks passed over by advancing `next_free` directly. */
    ghost var holes: set<nat>

    /** The buffer has at least its blocks; a put of more than a block makes it longer. */
    ghost predicate Shape()
      reads this
    {
      && ValidBlk(blk)
      && numAgs == (numBlocks + GROUPSIZE - 1) / GROUPSIZE
      && reserved == 1 + numAgs + LOG_LEN
      && |buf| >= numBlocks * blk
      && |bitmap| == numAgs * blk
    }

    ghost predicate Valid()
      reads this
    {
      && Shape()
      && Ledger(ledger, holes, reserved, nextFree, used)
      && forall h :: h in holes ==> h < nextFree
    }

    constructor (numBlocks: nat, blk: nat)
      requires ValidBlk(blk)
      ensures Valid() && this.numBlocks == numBlocks && this.blk == blk
      ensures nextFree == used == reserved && ledger == [] && holes == {}
      ensures bitmap == Zeros(numAgs * blk) && buf == Zeros(numBlocks * blk)
    {
      this.blk := blk;
      this.numBlocks := numBlocks;
      numAgs := (numBlocks + GROUPSIZE - 1) / GROUPSIZE;
      reserved := 1 + (numBlocks + GROUPSIZE - 1) / GROUPSIZE + LOG_LEN;
      buf := Zeros(numBlocks * blk);
      bitmap := Zeros((numBlocks + GROUPSIZE - 1) / GROUPSIZE * blk);
      nextFree := 1 + (numBlocks + GROUPSIZE - 1) / GROUPSIZE + LOG_LEN;
      used := 1 + (numBlocks + GROUPSIZE - 1) / GROUPSIZE + LOG_LEN;
      ledger := [];
      holes := {};
    }

    /** `alloc` */
    method Alloc(count: nat) returns (r: Result<nat>)
      requires Valid()
      modifies this`nextFree, this`used, this`ledger
      ensures r == if old(nextFree) + count <= numBlocks then Ok(old(nextFree)) else Err(ImageTooSmall)
      ensures nextFree == old(nextFree) + count
      ensures r.Ok? ==> Valid() && ledger == old(ledger) + [Extent(r.value, count)] && used == old(used) + count
    {
      var start := nextFree;
      nextFree := nextFree + count;
      if nextFree > numBlocks {
        return Err(ImageTooSmall);
      }
      LedgerAlloc(ledger, holes, reserved, start, used, count);
      used := used + count;
      ledger := ledger + [Extent(start, count)];
      return Ok(start);
    }

    /** The fixture's deliberate hole: `next_free += 1`. */
    method SkipBlock()
      requires Valid()
      modifies this`nextFree, this`holes
      ensures Valid() && nextFree == old(nextFree) + 1 && holes == old(holes) + {old(nextFree)}
    {
      LedgerSkip(ledger, holes, reserved, nextFree, used);
      holes := holes + {nextFree};
      nextFree := nextFree + 1;
    }

    /** `mark` */
    method Mark(block: nat, count: nat)
      requires Shape() && block + count <= 8 * |bitmap|
      modifies this`bitmap
      ensures |bitmap| == old(|bitmap|)
      ensures forall b: nat :: b < 8 * |bitmap| ==> (Bit(bitmap, b) <==> old(Bit(bitmap, b)) || block <= b < block + count)
    {
      var b := block;
      while b < block + count
        invariant block <= b <= block + count
        invariant |bitmap| == old(|bitmap|)
        invariant forall c: nat :: c < 8 * |bitmap| ==> (Bit(bitmap, c) <==> old(Bit(bitmap, c)) || block <= c < b)
      {
        ghost var before := bitmap;
        bitmap := SetBit(bitmap, b);
        forall c: nat | c < 8 * |bitmap|
          ensures Bit(bitmap, c) <==> Bit(before, c) || c == b
        {
          SetBitBits(before, b, c);
        }
        b := b + 1;
      }
    }

    /** The marking loops of both builds: every block handed out so far except the hole. */
    method MarkAllocated(hole: int)
      requires Valid() && nextFree <= numBlocks
      requires forall b: nat :: reserved <= b < nextFree ==> (b in holes <==> b == hole)
      requires forall b: nat :: b < 8 * |bitmap| ==> !Bit(bitmap, b)
      modifies this`bitmap
      ensures Valid()
      ensures forall b: nat :: b < 8 * |bitmap| ==> (Bit(bitmap, b) <==> Covered(ledger, b))
    {
      BitmapCapacity(numBlocks, blk);
      InOrderNonEmpty(ledger, reserved, nextFree);
      var b := reserved;
      while b < nextFree
        invariant reserved <= b <= nextFree
        invariant Valid()
        invariant forall c: nat :: c < 8 * |bitmap| ==> (Bit(bitmap, c) <==> reserved <= c < b && c != hole)
      {
        if b != hole {
          Mark(b, 1);
        }
        b := b + 1;
      }
    }

    /** `put`, whatever the length of the data: one block of bytes replaces that block and no other,
        and any other length changes the length of the image. */
    method PutBlock(b: nat, data: bytes)
      requires Shape() && b < numBlocks
      modifies this`buf
      ensures |buf| == |old(buf)| - blk + |data| && (|data| >= blk ==> Shape())
      ensures |data| == blk ==>
        forall n: nat :: n < numBlocks ==> BlockOf(buf, n, blk) == if n == b then data else old(BlockOf(buf, n, blk))
    {
      ghost var before := buf;
      buf := Put(buf, b, data, blk);
      PutKeepsLength(before, numBlocks, b, data, blk);
      forall n: nat | n < numBlocks && |data| == blk
        ensures BlockOf(buf, n, blk) == if n == b then data else BlockOf(before, n, blk)
      {
        PutReads(before, numBlocks, b, data, blk, n);
      }
    }

    /** The copying loop of `finish_bitmap`. */
    method PutBitmap()
      requires Shape() && 1 + numAgs <= numBlocks
      modifies this`buf
      ensures Shape() && |buf| == |old(buf)|
      ensures Flatten(BlocksOf(buf, 1, numAgs, blk)) == bitmap
      ensures forall n: nat :: n < numBlocks && !(1 <= n <= numAgs) ==> BlockOf(buf, n, blk) == old(BlockOf(buf, n, blk))
    {
      var g := 0;
      while g < numAgs
        invariant 0 <= g <= numAgs
        invariant Shape() && |buf| == |old(buf)|
        invariant forall n: nat :: n < numBlocks && !(1 <= n <= g) ==> BlockOf(buf, n, blk) == old(BlockOf(buf, n, blk))
        invariant forall n: nat :: 1 <= n <= g ==> BlockOf(buf, n, blk) == BlockOf(bitmap, n - 1, blk)
      {
        BlockBounds(g, numAgs, blk);
        PutBlock(1 + g, BlockOf(bitmap, g, blk));
        g := g + 1;
      }
      BlocksFlatten(buf, bitmap, numAgs, blk);
    }

    /** `finish_bitmap`: bit `b` ends up set exactly when `b` is reserved or was handed out,
        the bits number `used`, and blocks 1..num_ags hold them. */
    method FinishBitmap()
      requires Valid() && nextFree <= numBlocks
      requires forall b: nat :: b < 8 * |bitmap| ==> (Bit(bitmap, b) <==> Covered(ledger, b))
      modifies this`bitmap, this`buf
      ensures Valid() && |buf| == |old(buf)|
      ensures forall b: nat :: b < 8 * |bitmap| ==> (Bit(bitmap, b) <==> b < reserved || Covered(ledger, b))
      ensures Popcount(bitmap) == used
      ensures Flatten(BlocksOf(buf, 1, numAgs, blk)) == bitmap
      ensures forall n: nat :: n < numBlocks && !(1 <= n <= numAgs) ==> BlockOf(buf, n, blk) == old(BlockOf(buf, n, blk))
    {
      BitmapCapacity(numBlocks, blk);
      InOrderNonEmpty(ledger, reserved, nextFree);
      Mark(0, reserved);
      BitmapCounts(bitmap, ledger, reserved, nextFree);
      PutBitmap();
    }
  }

  lemma CoveredSnoc(es: seq<Extent>, e: Extent, b: int)
    ensures Covered(es + [e], b) <==> Covered(es, b) || Inside(e, b)
  {
    var all := es + [e];
    if Covered(es, b) {
      var i :| 0 <= i < |es| && Inside(es[i], b);
      assert Inside(all[i], b);
    }
    if Inside(e, b) {
      assert Inside(all[|es|], b);
    }
    if Covered(all, b) {
      var i :| 0 <= i < |all| && Inside(all[i], b);
      if i < |es| {
        assert Inside(es[i], b);
      }
    }
  }

  lemma BitmapCounts(bm: bytes, ledger: seq<Extent>, reserved: nat, nextFree: nat)
    requires InOrder(ledger, reserved, nextFree) && nextFree <= 8 * |bm|
    requires forall b: nat :: Covered(ledger, b) ==> b < nextFree
    requires forall b: nat :: b < 8 * |bm| ==> (Bit(bm, b) <==> b < reserved || Covered(ledger, b))
    ensures Popcount(bm) == reserved + Total(ledger)
  {
    InOrderNonEmpty(ledger, reserved, nextFree);
    PopcountIsCount(bm);
    LedgerCount(bm, ledger, reserved, nextFree);
    CountUniform(bm, nextFree, 8 * |bm|, false);
    CountSplit(bm, 0, nextFree, 8 * |bm|);
  }

  /** The blocks of a whole number of blocks, joined, are the bytes themselves. */
  lemma {:induction false} BlocksJoin(data: bytes, n: nat, blk: nat)
    requires |data| == n * blk
    ensures Flatten(BlocksOf(data, 0, n, blk)) == data
  {
    if n == 0 {
      assert data == [];
    } else {
      hide BlockOf, Flatten;
      var m := n - 1;
      BlockBounds(m, n, blk);
      var front, last := data[..m * blk], data[m * blk..];
      BlocksJoin(front, m, blk);
      forall k | 0 <= k < m
        ensures BlockOf(front, k, blk) == BlockOf(data, k, blk)
      {
        FrontBlock(data, m, k, blk);
      }
      LastBlock(data, m, blk);
      assert BlocksOf(data, 0, n, blk) == BlocksOf(front, 0, m, blk) + [last];
      FlattenSnoc(BlocksOf(front, 0, m, blk), last);
      assert data == front + last;
    }
  }

  lemma FrontBlock(data: bytes, m: nat, k: nat, blk: nat)
    requires m * blk <= |data| && k < m
    ensures BlockOf(data[..m * blk], k, blk) == BlockOf(data, k, blk)
  {
    BlockBounds(k, m, blk);
    SubSlice(data, 0, m * blk, k * blk, (k + 1) * blk);
  }

  lemma LastBlock(data: bytes, m: nat, blk: nat)
    requires |data| == (m + 1) * blk
    ensures m * blk <= |data| && BlockOf(data, m, blk) == data[m * blk..]
  {
    BlockBounds(m, m + 1, blk);
  }

  lemma BlocksFlatten(buf: bytes, bm: bytes, n: nat, blk: nat)
    requires |bm| == n * blk
    requires forall k: nat :: 1 <= k <= n ==> BlockOf(buf, k, blk) == BlockOf(bm, k - 1, blk)
    ensures Flatten(BlocksOf(buf, 1, n, blk)) == bm
  {
    assert BlocksOf(buf, 1, n, blk) == BlocksOf(bm, 0, n, blk);
    BlocksJoin(bm, n, blk);
  }

  /** Blocks of an image that equal the blocks of `s`, joined, are `s`. */
  lemma CopyJoins(data: bytes, s: bytes, start: nat, n: nat, blk: nat)
    requires |s| == n * blk
    requires forall k: nat :: k < n ==> BlockOf(data, start + k, blk) == BlockOf(s, k, blk)
    ensures Flatten(BlocksOf(data, start, n, blk)) == s
  {
    hide BlockOf;
    BlocksJoin(s, n, blk);
    assert BlocksOf(data, start, n, blk) == BlocksOf(s, 0, n, blk);
  }
}
