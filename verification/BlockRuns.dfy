/**
 Block runs: their 8-byte encoding, the splitting of a contiguous allocation at
 allocation-group boundaries, and the direct array of a data stream.
 */
module BlockRuns {
  import opened Bytes
  import opened Bits

  const AG_SHIFT: nat := 13
  const GROUPSIZE: nat := 8192

  /** Blocks whose group number fits the signed 32-bit field of a run. */
  const MAX_BLOCKS: nat := 0x1000_0000_0000

  /** A run of blocks; the start is a global block number. */
  datatype Run = Run(start: int, len: nat)

  /** `rblk` */
  function Rblk(block: int, len: nat): (r: bytes)
    ensures |r| == 8
  {
    Encode(block / GROUPSIZE, 4) + Encode(block % GROUPSIZE, 2) + Encode(len, 2)
  }

  function Signed32(u: nat): int
  {
    if u < 0x8000_0000 then u else u - 0x1_0000_0000
  }

  /** `run` of the readers, for groups of `group` blocks. */
  function ReadRun(b: bytes, o: nat, group: nat): Result<Run>
  {
    var ag :- U32(b, o);
    var start :- U16(b, o + 4);
    var len :- U16(b, o + 6);
    Ok(Run(Signed32(ag) * group + start, len))
  }

  lemma RunFields(b: bytes, o: nat, block: int, len: nat)
    requires FieldAt(b, o, Rblk(block, len))
    ensures FieldAt(b, o, Encode(block / GROUPSIZE, 4))
    ensures FieldAt(b, o + 4, Encode(block % GROUPSIZE, 2))
    ensures FieldAt(b, o + 6, Encode(len, 2))
  {
    var r := Rblk(block, len);
    assert b[o..o + 4] == r[0..4];
    assert b[o + 4..o + 6] == r[4..6];
    assert b[o + 6..o + 8] == r[6..8];
  }

  /** A run survives encoding and decoding, for every block the format can address. */
  lemma RunRoundTrip(b: bytes, o: nat, block: int, len: nat)
    requires FieldAt(b, o, Rblk(block, len)) && 0 <= block < MAX_BLOCKS && len < 0x1_0000
    ensures ReadRun(b, o, GROUPSIZE) == Ok(Run(block, len))
  {
    RunFields(b, o, block, len);
    ReadU32(b, o, block / GROUPSIZE);
    ReadU16(b, o + 4, block % GROUPSIZE);
    ReadU16(b, o + 6, len);
  }

  // ---------------------------------------------------------------------------
  // Splitting at group boundaries
  // ---------------------------------------------------------------------------

  function Min(a: nat, b: nat): nat
  {
    if a < b then a else b
  }

  function SplitRuns(start: nat, need: nat): seq<Run>
    decreases need
  {
    if need == 0 then []
    else
      var seg := Min(need, GROUPSIZE - start % GROUPSIZE);
      [Run(start, seg)] + SplitRuns(start + seg, need - seg)
  }

  lemma SplitFirst(start: nat, need: nat, seg: nat)
    requires need > 0 && seg == Min(need, GROUPSIZE - start % GROUPSIZE)
    ensures 0 < seg <= need && SplitRuns(start, need) == [Run(start, seg)] + SplitRuns(start + seg, need - seg)
  {
  }

  lemma SplitDone(start: nat)
    ensures SplitRuns(start, 0) == []
  {
  }

  lemma AppendFirst(runs: seq<Run>, r: Run, rest: seq<Run>)
    ensures runs + ([r] + rest) == runs + [r] + rest
  {
  }

  /** `split_runs` */
  method SplitAtGroups(start: nat, need: nat) returns (runs: seq<Run>)
    ensures runs == SplitRuns(start, need)
  {
    hide SplitRuns;
    runs := [];
    var pos: nat := 0;
    while pos < need
      invariant 0 <= pos <= need
      invariant SplitRuns(start, need) == runs + SplitRuns(start + pos, need - pos)
    {
      var seg := Min(need - pos, GROUPSIZE - (start + pos) % GROUPSIZE);
      SplitFirst(start + pos, need - pos, seg);
      assert start + pos + seg == start + (pos + seg) && need - pos - seg == need - (pos + seg);
      AppendFirst(runs, Run(start + pos, seg), SplitRuns(start + (pos + seg), need - (pos + seg)));
      runs := runs + [Run(start + pos, seg)];
      pos := pos + seg;
    }
    SplitDone(start + pos);
  }

  /** The runs cover `[start, start + need)` in order, without gap or overlap. */
  ghost predicate Tiles(runs: seq<Run>, start: nat, need: nat)
    decreases |runs|
  {
    if runs == [] then need == 0
    else runs[0].start == start && 0 < runs[0].len <= need && Tiles(runs[1..], start + runs[0].len, need - runs[0].len)
  }

  lemma TilesFirst(runs: seq<Run>, start: nat, need: nat)
    requires Tiles(runs, start, need) && runs != []
    ensures runs[0].start == start && 0 < runs[0].len <= need
    ensures Tiles(runs[1..], start + runs[0].len, need - runs[0].len)
  {
  }

  /** Cutting at the first group boundary leaves one group fewer. */
  lemma GroupsTouched(start: nat, seg: nat, need: nat)
    requires need > 0 && seg == Min(need, GROUPSIZE - start % GROUPSIZE)
    ensures seg < need ==> (start + seg) / GROUPSIZE == start / GROUPSIZE + 1
    ensures seg == need ==> (start + need - 1) / GROUPSIZE == start / GROUPSIZE
  {
  }

  lemma TilesCons(start: nat, seg: nat, need: nat, rest: seq<Run>)
    requires 0 < seg <= need && Tiles(rest, start + seg, need - seg)
    ensures Tiles([Run(start, seg)] + rest, start, need)
  {
    assert ([Run(start, seg)] + rest)[1..] == rest;
  }

  lemma TilesNothing(start: nat, need: nat)
    requires Tiles([], start, need)
    ensures need == 0
  {
  }

  predicate InOneGroup(r: Run)
  {
    r.len > 0 && r.start / GROUPSIZE == (r.start + r.len - 1) / GROUPSIZE
  }

  /** Splitting tiles the allocation, keeps every run in one group, and makes one run for
      each group touched. */
  lemma {:induction false} SplitRunsCorrect(start: nat, need: nat)
    ensures var runs := SplitRuns(start, need);
            && Tiles(runs, start, need)
            && (forall i :: 0 <= i < |runs| ==> InOneGroup(runs[i]) && runs[i].len <= GROUPSIZE)
            && |runs| == if need == 0 then 0 else (start + need - 1) / GROUPSIZE - start / GROUPSIZE + 1
    decreases need
  {
    if need > 0 {
      hide Tiles;
      var seg := Min(need, GROUPSIZE - start % GROUPSIZE);
      SplitRunsCorrect(start + seg, need - seg);
      TilesCons(start, seg, need, SplitRuns(start + seg, need - seg));
      GroupsTouched(start, seg, need);
    }
  }

  /** The direct array holds 12 runs. Wherever an allocation starts, it needs no more exactly
      when it is at most 11 groups and one block long. */
  lemma TwelveRunsSuffice(need: nat)
    ensures (forall start: nat :: |SplitRuns(start, need)| <= 12) <==> need <= 11 * GROUPSIZE + 1
  {
    if need <= 11 * GROUPSIZE + 1 {
      forall start: nat
        ensures |SplitRuns(start, need)| <= 12
      {
        SplitRunsCorrect(start, need);
      }
    } else {
      SplitRunsCorrect(GROUPSIZE - 1, need);
      assert |SplitRuns(GROUPSIZE - 1, need)| >= 13;
    }
  }

  // ---------------------------------------------------------------------------
  // The data stream of an inode
  // ---------------------------------------------------------------------------

  const DIRECT: nat := 12

  function DirectFields(runs: seq<Run>): (fs: seq<bytes>)
    ensures |fs| == DIRECT && Uniform(fs, 8)
  {
    seq(DIRECT, i requires 0 <= i < DIRECT =>
      if i < |runs| then Rblk(runs[i].start, runs[i].len) else Rblk(0, 0))
  }

  function TotalLength(runs: seq<Run>): nat
  {
    if runs == [] then 0 else runs[0].len + TotalLength(runs[1..])
  }

  /** `BLK.bit_length() - 1` */
  function Shift(blk: nat): nat
  {
    if blk < 2 then 0 else 1 + Shift(blk / 2)
  }

  /** The shift is the exponent of the largest power of two that is not above the block size. */
  lemma {:induction false} ShiftBounds(blk: nat)
    requires blk > 0
    ensures Pow2(Shift(blk)) <= blk < 2 * Pow2(Shift(blk)) && Shift(blk) < blk
  {
    if blk >= 2 {
      ShiftBounds(blk / 2);
    }
  }

  /** The value of max_direct_range: the blocks of the runs, shifted. */
  function MaxDirect(runs: seq<Run>, blk: nat): nat
  {
    TotalLength(runs) * Pow2(Shift(blk))
  }

  /** It is the byte range of the runs exactly for a block size that is a power of two. */
  lemma MaxDirectIff(runs: seq<Run>, blk: nat)
    requires blk > 0 && TotalLength(runs) > 0
    ensures MaxDirect(runs, blk) == TotalLength(runs) * blk <==> blk == Pow2(Shift(blk))
    ensures MaxDirect(runs, blk) <= TotalLength(runs) * blk
  {
    hide Shift, TotalLength, Pow2;
    var p, n := Pow2(Shift(blk)), TotalLength(runs);
    ShiftBounds(blk);
    MulLe(p, blk, n);
    assert p * n == n * p && blk * n == n * blk;
    if p < blk {
      MulLe(p + 1, blk, n);
      assert (p + 1) * n == p * n + n;
    }
  }

  /** max_direct_range, the empty indirect and double-indirect runs, and the size. */
  function StreamTail(maxDirect: nat, size: nat): (r: bytes)
    ensures |r| == 48
  {
    Encode(maxDirect, 8) + Rblk(0, 0) + Encode(0, 8) + Rblk(0, 0) + Encode(0, 8) + Encode(size, 8)
  }

  /** `data_stream`: direct runs, the range they cover, no indirect runs, and the size. */
  function DataStream(runs: seq<Run>, size: nat, blk: nat): (r: Result<bytes>)
    ensures r.Ok? ==> |r.value| == 144
    ensures r.Ok? <==> |runs| <= DIRECT
  {
    if |runs| > DIRECT then Err(IndexError)
    else
      UniformLength(DirectFields(runs), 8);
      Ok(Flatten(DirectFields(runs)) + StreamTail(MaxDirect(runs, blk), size))
  }
}
