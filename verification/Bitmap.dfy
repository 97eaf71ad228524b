/**
 The block bitmap: setting bits, counting them, and the ledger of bump allocations that the
 finished bitmap has to agree with.
 */
module Bitmap {
  import opened Bytes
  import opened Bits

  /** `x | (1 << k)` on a byte */
  function OrBit(x: byte, k: nat): (r: byte)
    requires k < 8
  {
    OrBitInRange(x, k);
    Or(x, Pow2(k))
  }

  lemma OrBitInRange(x: byte, k: nat)
    requires k < 8
    ensures Or(x, Pow2(k)) < 256
  {
    Pow2Add(k, 8 - k);
    assert Pow2(8) == 256;
    assert Pow2(8 - k) == 2 * Pow2(7 - k);
    assert Pow2(k) * Pow2(8 - k) >= Pow2(k) * 2 by {
      assert Pow2(k) * Pow2(8 - k) == Pow2(k) * 2 * Pow2(7 - k);
    }
    OrBound(x, Pow2(k), 8);
  }

  /** Bit `b` of a bitmap: bit `b & 7` of byte `b >> 3`. */
  predicate Bit(bm: bytes, b: nat)
    requires b < 8 * |bm|
  {
    HasBit(bm[b / 8], b % 8)
  }

  function SetBit(bm: bytes, b: nat): bytes
    requires b < 8 * |bm|
  {
    bm[b / 8 := OrBit(bm[b / 8], b % 8)]
  }

  lemma SetBitBits(bm: bytes, b: nat, c: nat)
    requires b < 8 * |bm| && c < 8 * |bm|
    ensures Bit(SetBit(bm, b), c) <==> Bit(bm, c) || c == b
  {
    if c / 8 == b / 8 {
      OrHasBit(bm[b / 8], Pow2(b % 8), c % 8);
      PowerHasBit(b % 8, c % 8);
    }
  }

  // ---------------------------------------------------------------------------
  // Counting
  // ---------------------------------------------------------------------------

  /** The ones among the low `n` bits. */
  function PopLow(x: nat, n: nat): nat
  {
    if n == 0 then 0 else PopLow(x, n - 1) + if HasBit(x, n - 1) then 1 else 0
  }

  /** `bin(x).count("1")` */
  function PopByte(x: byte): nat
  {
    PopLow(x, 8)
  }

  function Popcount(bm: bytes): nat
  {
    if bm == [] then 0 else Popcount(bm[..|bm| - 1]) + PopByte(bm[|bm| - 1])
  }

  /** The number of set bits in `[lo, hi)`. */
  function CountRange(bm: bytes, lo: nat, hi: nat): nat
    requires lo <= hi <= 8 * |bm|
  {
    if lo == hi then 0 else CountRange(bm, lo, hi - 1) + if Bit(bm, hi - 1) then 1 else 0
  }

  lemma {:induction false} CountPrefix(a: bytes, b: bytes, hi: nat)
    requires hi <= 8 * |a|
    ensures CountRange(a + b, 0, hi) == CountRange(a, 0, hi)
  {
    if hi > 0 {
      CountPrefix(a, b, hi - 1);
      assert (a + b)[(hi - 1) / 8] == a[(hi - 1) / 8];
    }
  }

  lemma BitOfByte(bm: bytes, lo: nat, n: nat)
    requires lo < |bm| && n < 8
    ensures PopLow(bm[lo], n + 1) == PopLow(bm[lo], n) + if Bit(bm, 8 * lo + n) then 1 else 0
  {
  }

  lemma {:induction false} CountByte(bm: bytes, lo: nat, n: nat)
    requires lo < |bm| && n <= 8
    ensures CountRange(bm, 0, 8 * lo + n) == CountRange(bm, 0, 8 * lo) + PopLow(bm[lo], n)
  {
    if n > 0 {
      hide Bit, PopLow;
      CountByte(bm, lo, n - 1);
      BitOfByte(bm, lo, n - 1);
    }
  }

  /** Counting byte by byte is counting bit by bit. */
  lemma {:induction false} PopcountIsCount(bm: bytes)
    ensures Popcount(bm) == CountRange(bm, 0, 8 * |bm|)
  {
    if bm != [] {
      var n := |bm| - 1;
      PopcountIsCount(bm[..n]);
      CountPrefix(bm[..n], [bm[n]], 8 * n);
      assert bm[..n] + [bm[n]] == bm;
      CountByte(bm, n, 8);
    }
  }

  lemma {:induction false} CountUniform(bm: bytes, lo: nat, hi: nat, v: bool)
    requires lo <= hi <= 8 * |bm|
    requires forall b :: lo <= b < hi ==> Bit(bm, b) == v
    ensures CountRange(bm, lo, hi) == if v then hi - lo else 0
  {
    if lo < hi {
      CountUniform(bm, lo, hi - 1, v);
    }
  }

  lemma {:induction false} CountSplit(bm: bytes, lo: nat, mid: nat, hi: nat)
    requires lo <= mid <= hi <= 8 * |bm|
    ensures CountRange(bm, lo, hi) == CountRange(bm, lo, mid) + CountRange(bm, mid, hi)
  {
    if mid < hi {
      CountSplit(bm, lo, mid, hi - 1);
    }
  }

  // ---------------------------------------------------------------------------
  // The allocation ledger
  // ---------------------------------------------------------------------------

  /** Blocks `[start, start + count)` handed out by one allocation. */
  datatype Extent = Extent(start: nat, count: nat)

  predicate Inside(e: Extent, b: int)
  {
    e.start <= b < e.start + e.count
  }

  /** The extents lie in `[lo, hi)`, each after the one before it. */
  ghost predicate InOrder(es: seq<Extent>, lo: nat, hi: nat)
  {
    if es == [] then lo <= hi
    else
      var e := es[|es| - 1];
      e.start + e.count <= hi && InOrder(es[..|es| - 1], lo, e.start)
  }

  function Total(es: seq<Extent>): nat
  {
    if es == [] then 0 else Total(es[..|es| - 1]) + es[|es| - 1].count
  }

  ghost predicate Covered(es: seq<Extent>, b: int)
  {
    exists i :: 0 <= i < |es| && Inside(es[i], b)
  }

  lemma {:induction false} InOrderBounds(es: seq<Extent>, lo: nat, hi: nat, i: nat)
    requires InOrder(es, lo, hi) && i < |es|
    ensures lo <= es[i].start && es[i].start + es[i].count <= hi
  {
    if i < |es| - 1 {
      InOrderBounds(es[..|es| - 1], lo, es[|es| - 1].start, i);
    } else {
      InOrderNonEmpty(es[..i], lo, es[i].start);
    }
  }

  lemma {:induction false} InOrderNonEmpty(es: seq<Extent>, lo: nat, hi: nat)
    requires InOrder(es, lo, hi)
    ensures lo <= hi
  {
    if es != [] {
      InOrderNonEmpty(es[..|es| - 1], lo, es[|es| - 1].start);
    }
  }

  /** No block belongs to two allocations. */
  lemma {:induction false} InOrderDisjoint(es: seq<Extent>, lo: nat, hi: nat, i: nat, j: nat)
    requires InOrder(es, lo, hi) && i < j < |es|
    ensures es[i].start + es[i].count <= es[j].start
    ensures forall b :: Inside(es[i], b) ==> !Inside(es[j], b)
  {
    var n := |es| - 1;
    if j == n {
      InOrderBounds(es[..n], lo, es[n].start, i);
    } else {
      InOrderDisjoint(es[..n], lo, es[n].start, i, j);
    }
  }

  lemma {:induction false} InOrderWider(es: seq<Extent>, lo: nat, hi: nat, hi': nat)
    requires InOrder(es, lo, hi) && hi <= hi'
    ensures InOrder(es, lo, hi')
  {
  }

  /** A bitmap that is set exactly on the reserved blocks and the ledger holds as many bits
      as blocks were counted. */
  lemma {:induction false} LedgerCount(bm: bytes, es: seq<Extent>, lo: nat, hi: nat)
    requires InOrder(es, lo, hi) && hi <= 8 * |bm|
    requires forall b :: 0 <= b < hi ==> (Bit(bm, b) <==> b < lo || Covered(es, b))
    ensures CountRange(bm, 0, hi) == lo + Total(es)
    decreases |es|
  {
    hide Bit, CountRange;
    InOrderNonEmpty(es, lo, hi);
    if es == [] {
      CountUniform(bm, 0, lo, true);
      CountUniform(bm, lo, hi, false);
      CountSplit(bm, 0, lo, hi);
    } else {
      var n := |es| - 1;
      var e := es[n];
      InOrderNonEmpty(es[..n], lo, e.start);
      forall b | 0 <= b < hi
        ensures b < e.start ==> (Bit(bm, b) <==> b < lo || Covered(es[..n], b))
        ensures Inside(e, b) ==> Bit(bm, b)
        ensures e.start + e.count <= b ==> !Bit(bm, b)
      {
        LedgerMember(es, lo, hi, b);
      }
      LedgerCount(bm, es[..n], lo, e.start);
      CountUniform(bm, e.start, e.start + e.count, true);
      CountUniform(bm, e.start + e.count, hi, false);
      CountSplit(bm, 0, e.start, e.start + e.count);
      CountSplit(bm, 0, e.start + e.count, hi);
    }
  }

  /** Membership in the ledger, last extent first. */
  lemma LedgerMember(es: seq<Extent>, lo: nat, hi: nat, b: nat)
    requires es != [] && InOrder(es, lo, hi) && b < hi
    ensures var e := es[|es| - 1];
            && lo <= e.start
            && (Covered(es, b) <==> Covered(es[..|es| - 1], b) || Inside(e, b))
            && (Covered(es[..|es| - 1], b) ==> b < e.start)
  {
    var n := |es| - 1;
    var e := es[n];
    InOrderNonEmpty(es[..n], lo, e.start);
    if Covered(es[..n], b) {
      var i :| 0 <= i < n && Inside(es[..n][i], b);
      InOrderBounds(es[..n], lo, e.start, i);
      assert Inside(es[i], b);
    }
    if Covered(es, b) {
      var i :| 0 <= i < |es| && Inside(es[i], b);
      if i < n {
        assert Inside(es[..n][i], b);
      }
    }
  }
}
