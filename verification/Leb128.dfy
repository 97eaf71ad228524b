/**
 LEB128 decoding as `unwind-pe.h` does it, with 64-bit shifts, ors and a modular sign
 extension, against the values of section 7.6 of DWARF 5.
 */
module Leb128 {
  import opened Bytes
  import opened Bits

  const WORD: nat := 0x1_0000_0000_0000_0000

  // ---------------------------------------------------------------------------
  // C operations on a 64-bit unsigned word
  // ---------------------------------------------------------------------------

  /** `x << k` for k below 64 */
  function Shl(x: nat, k: nat): nat
  {
    x * Pow2(k) % WORD
  }

  /** `-x` */
  function Neg(x: nat): nat
    requires x < WORD
  {
    (WORD - x) % WORD
  }

  // ---------------------------------------------------------------------------
  // What an encoding means
  // ---------------------------------------------------------------------------

  /** An encoding starts at `p` and ends inside the memory. */
  predicate Terminated(mem: bytes, p: nat)
    decreases |mem| - p
  {
    p < |mem| && (mem[p] < 128 || Terminated(mem, p + 1))
  }

  /** The position after the encoding at `p`. */
  function EndOf(mem: bytes, p: nat): (q: nat)
    requires Terminated(mem, p)
    ensures p < q <= |mem|
    decreases |mem| - p
  {
    if mem[p] < 128 then p + 1 else EndOf(mem, p + 1)
  }

  function EncodingAt(mem: bytes, p: nat): (e: bytes)
    requires Terminated(mem, p)
    ensures |e| >= 1
  {
    mem[p..EndOf(mem, p)]
  }

  /** The unsigned value: groups of seven bits, least significant first. */
  function UValue(s: bytes): nat
  {
    if s == [] then 0 else s[0] % 128 + 128 * UValue(s[1..])
  }

  /** The signed value: bit 6 of the last byte is the sign. */
  function SValue(s: bytes): int
    requires s != []
  {
    if |s| == 1 then (if s[0] % 128 < 64 then s[0] % 128 else s[0] % 128 - 128)
    else s[0] % 128 + 128 * SValue(s[1..])
  }

  /** 128^i, the weight of group `i`. */
  function Group(i: nat): (g: nat)
    ensures g >= 1
    decreases i
  {
    if i == 0 then 1 else 128 * Group(i - 1)
  }

  lemma {:induction false} GroupIsPow2(i: nat)
    ensures Group(i) == Pow2(7 * i)
  {
    hide Pow2;
    if i == 0 {
      PowSmall();
    } else {
      GroupIsPow2(i - 1);
      Pow2Add(7, 7 * (i - 1));
      PowSmall();
    }
  }

  lemma PowSmall()
    ensures Pow2(0) == 1 && Pow2(6) == 64 && Pow2(7) == 128
  {
  }

  lemma {:induction false} GroupGrows(i: nat, j: nat)
    requires i <= j
    ensures Group(i) <= Group(j)
    decreases j
  {
    if i < j {
      GroupGrows(i, j - 1);
    }
  }

  lemma Group9()
    ensures Group(9) == 0x8000_0000_0000_0000
  {
    assert Group(3) == 0x20_0000;
    assert Group(6) == 128 * (128 * (128 * Group(3)));
    assert Group(9) == 128 * (128 * (128 * Group(6)));
  }

  lemma {:induction false} UValueSnoc(s: bytes, b: byte)
    ensures UValue(s + [b]) == UValue(s) + b % 128 * Group(|s|)
    ensures UValue(s) < Group(|s|)
  {
    if s == [] {
      assert s + [b] == [b];
      assert UValue([b]) == b % 128 + 128 * UValue([b][1..]);
    } else {
      UValueSnoc(s[1..], b);
      assert (s + [b])[1..] == s[1..] + [b];
      var g := Group(|s| - 1);
      assert 128 * (b % 128 * g) == b % 128 * (128 * g);
    }
  }

  /** The signed value is the unsigned one, minus one full range when the sign bit is set. */
  lemma {:induction false} SValueFromU(s: bytes)
    requires s != []
    ensures SValue(s) == UValue(s) - if s[|s| - 1] % 128 < 64 then 0 else Group(|s|)
    ensures s[|s| - 1] % 128 < 64 ==> 2 * UValue(s) < Group(|s|)
    ensures s[|s| - 1] % 128 >= 64 ==> Group(|s|) <= 2 * UValue(s) < 2 * Group(|s|)
  {
    if |s| == 1 {
      assert s[1..] == [];
      assert Group(1) == 128;
    } else {
      SValueFromU(s[1..]);
      assert s[1..][|s[1..]| - 1] == s[|s| - 1];
      hide Group;
      GroupNext(|s| - 1);
      assert UValue(s) == s[0] % 128 + 128 * UValue(s[1..]);
      assert SValue(s) == s[0] % 128 + 128 * SValue(s[1..]);
    }
  }

  // ---------------------------------------------------------------------------
  // The decoding loop
  // ---------------------------------------------------------------------------

  /** One turn of the loop: or-ing the next group in adds it, modulo the word. */
  lemma OrGroup(acc: nat, d: nat, i: nat)
    requires i <= 9 && d < 128 && acc < Group(i)
    ensures Or(acc, Shl(d, 7 * i)) == (acc + d * Group(i)) % WORD
    ensures i <= 8 ==> Or(acc, Shl(d, 7 * i)) == acc + d * Group(i) < Group(i + 1) <= Group(9)
  {
    hide Pow2, Or, Group, Shl;
    Group9();
    if i <= 8 {
      OrLowGroup(acc, d, i);
    } else {
      OrTopGroup(acc, d);
    }
  }

  lemma OrLowGroup(acc: nat, d: nat, i: nat)
    requires i <= 8 && d < 128 && acc < Group(i)
    ensures Or(acc, Shl(d, 7 * i)) == acc + d * Group(i) < Group(i + 1) <= Group(9) < WORD
  {
    hide Pow2, Or, Group, Shl;
    var g := Group(i);
    GroupIsPow2(i);
    GroupNext(i);
    GroupGrows(i + 1, 9);
    Group9();
    MulLe(d, 127, g);
    ShlSmall(d, 7 * i);
    OrIsSum(acc, d, 7 * i);
  }

  lemma ShlSmall(x: nat, k: nat)
    requires x * Pow2(k) < WORD
    ensures Shl(x, k) == x * Pow2(k)
  {
    hide Pow2;
  }

  lemma OrTopGroup(acc: nat, d: nat)
    requires d < 128 && acc < Group(9)
    ensures Or(acc, Shl(d, 63)) == (acc + d * Group(9)) % WORD
  {
    hide Pow2, Or, Group;
    GroupIsPow2(9);
    Group9();
    TopGroup(d);
    OrIsSum(acc, d % 2, 63);
    var x := d * 0x8000_0000_0000_0000;
    assert (acc + x) % WORD == acc + x % WORD by {
      assert acc + x == x / WORD * WORD + (acc + x % WORD);
    }
  }

  lemma GroupNext(i: nat)
    ensures Group(i + 1) == 128 * Group(i)
  {
  }

  lemma GroupOne()
    ensures Group(0) == 1 && Group(1) == 128
  {
  }

  lemma TopGroup(d: nat)
    requires d < 128
    ensures d * 0x8000_0000_0000_0000 % WORD == d % 2 * 0x8000_0000_0000_0000
  {
    assert d == 2 * (d / 2) + d % 2;
    assert d * 0x8000_0000_0000_0000 == (d / 2) * WORD + d % 2 * 0x8000_0000_0000_0000;
  }

  /** The do-while loop shared by both readers. */
  method Accumulate(mem: bytes, p: nat) returns (result: nat, shift: nat, last: byte, q: nat)
    requires Terminated(mem, p) && |EncodingAt(mem, p)| <= 10
    ensures q == EndOf(mem, p) && last == mem[q - 1] && last < 128 && shift == 7 * |EncodingAt(mem, p)|
    ensures result == UValue(EncodingAt(mem, p)) % WORD
  {
    hide Or, Shl, UValue, Group;
    result, shift, q := 0, 0, p;
    ghost var i := 0;
    EmptyValue();
    assert mem[p..p] == [];
    while true
      invariant q == p + i && shift == 7 * i && i <= 9
      invariant Terminated(mem, q) && EndOf(mem, q) == EndOf(mem, p)
      invariant result == UValue(mem[p..q]) < Group(i)
      decreases |mem| - q
    {
      last := mem[q];
      assert mem[p..q + 1] == mem[p..q] + [last];
      UValueSnoc(mem[p..q], last);
      OrGroup(result, last % 128, i);
      result := Or(result, Shl(last % 128, shift));
      q := q + 1;
      shift := shift + 7;
      if last < 128 {
        break;
      }
      i := i + 1;
    }
    Group9();
  }

  lemma EmptyValue()
    ensures UValue([]) == 0 && Group(0) == 1
  {
  }

  /** `read_uleb128`: the mathematical value, and exactly the encoded bytes consumed. */
  method ReadUleb128(mem: bytes, p: nat) returns (val: nat, q: nat)
    requires Terminated(mem, p) && |EncodingAt(mem, p)| <= 10 && UValue(EncodingAt(mem, p)) < WORD
    ensures val == UValue(EncodingAt(mem, p)) && q == p + |EncodingAt(mem, p)|
  {
    var shift, last;
    val, shift, last, q := Accumulate(mem, p);
  }

  /** `read_sleb128` */
  method ReadSleb128(mem: bytes, p: nat) returns (val: int, q: nat)
    requires Terminated(mem, p) && |EncodingAt(mem, p)| <= 10
    requires -MAX_I64 <= SValue(EncodingAt(mem, p)) < MAX_I64
    ensures val == SValue(EncodingAt(mem, p)) && q == p + |EncodingAt(mem, p)|
  {
    var result, shift, last;
    hide Or, Shl, UValue, SValue, Neg;
    result, shift, last, q := Accumulate(mem, p);
    ghost var e := EncodingAt(mem, p);
    assert e[|e| - 1] == last;
    SignExtension(e);
    if shift < 64 && last / 64 % 2 == 1 {
      result := Or(result, Neg(Shl(1, shift)));
    }
    val := Signed64(result);
  }

  /** The modular sign extension yields the two's-complement word of the signed value. */
  lemma SignExtension(e: bytes)
    requires 1 <= |e| <= 10 && e[|e| - 1] < 128 && -MAX_I64 <= SValue(e) < MAX_I64
    ensures var n, u := 7 * |e|, UValue(e) % WORD;
            if n < 64 && e[|e| - 1] / 64 % 2 == 1
            then Shl(1, n) < WORD && Signed64(Or(u, Neg(Shl(1, n)))) == SValue(e)
            else Signed64(u) == SValue(e)
  {
    hide Pow2, Or, Shl, Neg, UValue, SValue, Group;
    var last, n := e[|e| - 1], |e|;
    SValueFromU(e);
    Group9();
    if n <= 9 {
      GroupGrows(n, 9);
      if last >= 64 {
        ExtendShort(UValue(e), n);
      }
    } else {
      GroupNext(9);
    }
  }

  lemma WordIsPow2()
    ensures Pow2(64) == WORD
  {
    hide Pow2;
    GroupIsPow2(9);
    Group9();
    Pow2Add(63, 1);
    PowOne();
  }

  lemma PowOne()
    ensures Pow2(1) == 2
  {
  }

  lemma ExtendShort(u: nat, i: nat)
    requires i <= 9 && u < Group(i) <= 2 * u && Group(i) <= 0x8000_0000_0000_0000
    ensures Shl(1, 7 * i) == Group(i) && Signed64(Or(u, Neg(Shl(1, 7 * i)))) == u - Group(i)
  {
    hide Pow2, Or, Group;
    var n := 7 * i;
    var p, c := Pow2(n), Pow2(64 - n);
    GroupIsPow2(i);
    Pow2Add(n, 64 - n);
    WordIsPow2();
    assert WORD - p == (c - 1) * p;
    OrIsSum(u, c - 1, n);
  }

  // ---------------------------------------------------------------------------
  // The canonical encoders
  // ---------------------------------------------------------------------------

  function EncodeU(x: nat): (r: bytes)
    ensures r != []
  {
    if x < 128 then [x] else [128 + x % 128] + EncodeU(x / 128)
  }

  function EncodeS(x: int): (r: bytes)
    ensures r != []
    decreases if x < 0 then -x else x
  {
    if -64 <= x < 64 then [x % 128] else [128 + x % 128] + EncodeS(x / 128)
  }

  /** A string is a whole encoding: only its last byte lacks the continuation bit. */
  ghost predicate Whole(s: bytes)
  {
    s != [] && s[|s| - 1] < 128 && forall i :: 0 <= i < |s| - 1 ==> s[i] >= 128
  }

  lemma WholeCons(b: byte, rest: bytes)
    requires b >= 128 && Whole(rest)
    ensures Whole([b] + rest) && UValue([b] + rest) == b % 128 + 128 * UValue(rest)
    ensures SValue([b] + rest) == b % 128 + 128 * SValue(rest)
  {
    assert ([b] + rest)[1..] == rest;
  }

  lemma {:induction false} EncodeUValue(x: nat)
    ensures UValue(EncodeU(x)) == x && Whole(EncodeU(x))
  {
    if x >= 128 {
      EncodeUValue(x / 128);
      var rest := EncodeU(x / 128);
      assert EncodeU(x) == [128 + x % 128] + rest;
      WholeCons(128 + x % 128, rest);
    }
  }

  lemma SmallSleb(x: int)
    requires -64 <= x < 64
    ensures SValue(EncodeS(x)) == x && Whole(EncodeS(x)) && |EncodeS(x)| == 1
  {
    assert EncodeS(x) == [x % 128];
  }

  lemma SlebStep(x: int)
    requires !(-64 <= x < 64)
    ensures EncodeS(x) == [128 + x % 128] + EncodeS(x / 128)
    ensures x == 128 * (x / 128) + x % 128 && (if x < 0 then x < x / 128 < 0 else 0 <= x / 128 < x)
  {
  }

  lemma {:induction false} EncodeSValue(x: int)
    ensures SValue(EncodeS(x)) == x && Whole(EncodeS(x))
    decreases if x < 0 then -x else x
  {
    hide EncodeS, SValue, Whole;
    if -64 <= x < 64 {
      SmallSleb(x);
    } else {
      SlebStep(x);
      EncodeSValue(x / 128);
      WholeCons(128 + x % 128, EncodeS(x / 128));
    }
  }

  lemma {:induction false} EncodeULength(x: nat, k: nat)
    requires k >= 1 && x < Group(k)
    ensures |EncodeU(x)| <= k
    decreases k
  {
    if x >= 128 {
      EncodeULength(x / 128, k - 1);
    }
  }

  lemma HalfRange(x: int, q: int, m: nat, h: int)
    requires x == 128 * q + m && m < 128 && -128 * h <= x < 128 * h
    ensures -h <= q < h
  {
  }

  lemma {:induction false} EncodeSLength(x: int, k: nat)
    requires k >= 1 && -(Group(k) as int) <= 2 * x < Group(k)
    ensures |EncodeS(x)| <= k
    decreases k
  {
    hide Group, EncodeS, SValue, Whole;
    if -64 <= x < 64 {
      SmallSleb(x);
    } else {
      GroupOne();
      GroupNext(k - 1);
      SlebStep(x);
      assert k > 1;
      GroupNext(k - 2);
      HalfRange(x, x / 128, x % 128, 64 * Group(k - 2));
      EncodeSLength(x / 128, k - 1);
    }
  }

  /** An encoding found anywhere in memory is read off as itself. */
  lemma {:induction false} WholeAt(mem: bytes, p: nat, s: bytes)
    requires Whole(s) && FieldAt(mem, p, s)
    ensures Terminated(mem, p) && EndOf(mem, p) == p + |s| && EncodingAt(mem, p) == s
    decreases |s|
  {
    assert mem[p] == mem[p..p + |s|][0] == s[0];
    if |s| > 1 {
      assert mem[p + 1..p + 1 + |s[1..]|] == mem[p..p + |s|][1..] == s[1..];
      WholeAt(mem, p + 1, s[1..]);
    }
  }

  /** Every unsigned 64-bit value survives encoding and decoding, wherever it is stored. */
  lemma UlebRoundTrip(mem: bytes, p: nat, x: nat)
    requires x < WORD && FieldAt(mem, p, EncodeU(x))
    ensures Terminated(mem, p) && EncodingAt(mem, p) == EncodeU(x) && |EncodeU(x)| <= 10
    ensures UValue(EncodingAt(mem, p)) == x
  {
    EncodeUValue(x);
    WholeAt(mem, p, EncodeU(x));
    Group9();
    assert Group(10) == 128 * Group(9);
    EncodeULength(x, 10);
  }

  /** Every signed 64-bit value does too. */
  lemma SlebRoundTrip(mem: bytes, p: nat, x: int)
    requires -MAX_I64 <= x < MAX_I64 && FieldAt(mem, p, EncodeS(x))
    ensures Terminated(mem, p) && EncodingAt(mem, p) == EncodeS(x) && |EncodeS(x)| <= 10
    ensures SValue(EncodingAt(mem, p)) == x
  {
    EncodeSValue(x);
    WholeAt(mem, p, EncodeS(x));
    Group9();
    assert Group(10) == 128 * Group(9);
    EncodeSLength(x, 10);
  }
}
