/**
 The byte-level vocabulary shared by the BeFS writer and its readers: little-endian
 integers, Python slice semantics and concatenations of fixed-width pieces.
 */
module Bytes {

  type byte = x: int | 0 <= x < 256
  type bytes = seq<byte>

  /** The ways the BeFS tools stop: `SystemExit`, `struct.error`, `IndexError`, `AssertionError`,
      `UnicodeDecodeError`. */
  datatype Error =
    | StructError
    | IndexError
    | NodeOverflow
    | KeyTooLarge
    | ImageTooSmall
    | StreamResized
    | BadMagic
    | DescentTooDeep
    | ChainTooLong
    | LogDirty
    | NotFound
    | ZeroDivision
    | CheckFailed
    | DecodeError

  datatype Result<+T> = Ok(value: T) | Err(error: Error) {
    predicate IsFailure() { Err? }

    function PropagateFailure<U>(): Result<U>
      requires Err?
    {
      Err(error)
    }

    function Extract(): T
      requires Ok?
    {
      value
    }
  }

  datatype Option<+T> = None | Some(value: T) {
    predicate IsFailure() { None? }

    function PropagateFailure<U>(): Option<U>
      requires None?
    {
      None
    }

    function Extract(): T
      requires Some?
    {
      value
    }
  }

  // ---------------------------------------------------------------------------
  // Little-endian integers
  // ---------------------------------------------------------------------------

  function Pow256(w: nat): (p: nat)
    ensures p >= 1
  {
    if w == 0 then 1 else 256 * Pow256(w - 1)
  }

  lemma Pow256Values()
    ensures Pow256(2) == 0x1_0000
    ensures Pow256(4) == 0x1_0000_0000
    ensures Pow256(8) == 0x1_0000_0000_0000_0000
  {
    assert Pow256(4) == 256 * (256 * Pow256(2));
    assert Pow256(6) == 256 * (256 * Pow256(4));
    assert Pow256(8) == 256 * (256 * Pow256(6));
  }

  /** `struct.pack` of `x & (2^(8w) - 1)`: Euclidean division makes negative numbers come
      out in two's complement. */
  function Encode(x: int, w: nat): (s: bytes)
    ensures |s| == w
    decreases w, x
  {
    if w == 0 then [] else [x % 256] + Encode(x / 256, w - 1)
  }

  function Decode(s: bytes): nat
  {
    if s == [] then 0 else s[0] + 256 * Decode(s[1..])
  }

  /** Decoding an encoded integer gives it back modulo 2^(8w). */
  lemma {:induction false} DecodeEncode(x: int, w: nat) returns (t: int)
    ensures x == Pow256(w) * t + Decode(Encode(x, w))
    ensures Decode(Encode(x, w)) < Pow256(w)
    decreases w
  {
    if w == 0 {
      t := x;
    } else {
      t := DecodeEncode(x / 256, w - 1);
      var q, p, d := x / 256, Pow256(w - 1), Decode(Encode(x / 256, w - 1));
      assert Encode(x, w)[1..] == Encode(q, w - 1);
      assert x == 256 * (p * t + d) + x % 256;
      assert 256 * (p * t) == (256 * p) * t;
    }
  }

  const MAX_I64: int := 0x8000_0000_0000_0000

  function Signed64(u: nat): int
  {
    if u < MAX_I64 then u else u - 0x1_0000_0000_0000_0000
  }

  lemma Unsigned16(x: int)
    requires 0 <= x < 0x1_0000
    ensures Decode(Encode(x, 2)) == x
  {
    var t := DecodeEncode(x, 2);
    Pow256Values();
  }

  lemma Unsigned32(x: int)
    requires 0 <= x < 0x1_0000_0000
    ensures Decode(Encode(x, 4)) == x
  {
    var t := DecodeEncode(x, 4);
    Pow256Values();
  }

  lemma SignedRoundTrip64(x: int)
    requires -MAX_I64 <= x < MAX_I64
    ensures Signed64(Decode(Encode(x, 8))) == x
  {
    hide Encode, Decode, Pow256;
    var t := DecodeEncode(x, 8);
    Pow256Values();
  }

  // ---------------------------------------------------------------------------
  // Python slices
  // ---------------------------------------------------------------------------

  /** A slice bound of Python: negative counts from the end, then clamped. */
  function Clamp(i: int, n: nat): (r: nat)
    ensures r <= n
  {
    if i < 0 then (if i + n < 0 then 0 else i + n)
    else if i > n then n else i
  }

  /** `s[lo:hi]` */
  function Slice<T>(s: seq<T>, lo: int, hi: int): (r: seq<T>)
    ensures 0 <= lo <= hi <= |s| ==> r == s[lo..hi]
  {
    var l, h := Clamp(lo, |s|), Clamp(hi, |s|);
    if l <= h then s[l..h] else []
  }

  /** `s[lo:hi] = data`: a replacement of another length moves everything after it. */
  function Splice(s: bytes, lo: nat, hi: nat, data: bytes): (r: bytes)
    requires lo <= hi
    ensures hi <= |s| ==> r == s[..lo] + data + s[hi..]
    ensures hi <= |s| ==> |r| == |s| - (hi - lo) + |data|
  {
    s[..Clamp(lo, |s|)] + data + s[Clamp(hi, |s|)..]
  }

  /** `s[lo:hi] = data` for any bounds, negative ones counting from the end. */
  function Assign(s: bytes, lo: int, hi: int, data: bytes): (r: bytes)
    ensures 0 <= lo <= hi ==> r == Splice(s, lo, hi, data)
  {
    var l, h := Clamp(lo, |s|), Clamp(hi, |s|);
    s[..l] + data + s[if l <= h then h else l..]
  }

  lemma SubSlice<T>(s: seq<T>, a: nat, b: nat, c: nat, d: nat)
    requires a <= b <= |s| && c <= d <= b - a
    ensures s[a..b][c..d] == s[a + c..a + d]
  {
    var t := s[a..b];
    forall i | 0 <= i < d - c
      ensures t[c..d][i] == s[a + c..a + d][i]
    {
      assert t[c..d][i] == t[c + i] == s[a + c + i];
    }
  }

  /** Equal stretches have equal parts. */
  lemma SamePart<T>(s: seq<T>, t: seq<T>, a: nat, b: nat, c: nat, d: nat)
    requires a <= c <= d <= b <= |s| && b <= |t| && s[a..b] == t[a..b]
    ensures s[c..d] == t[c..d]
  {
    SubSlice(s, a, b, c - a, d - a);
    SubSlice(t, a, b, c - a, d - a);
  }

  function Zeros(n: nat): (s: bytes)
    ensures |s| == n
  {
    seq(n, _ => 0)
  }

  // ---------------------------------------------------------------------------
  // struct.unpack_from
  // ---------------------------------------------------------------------------

  /** The `w` raw bytes at `o`; `struct.error` when they are not all there. */
  function Raw(b: bytes, o: nat, w: nat): Result<bytes>
  {
    if o + w <= |b| then Ok(b[o..o + w]) else Err(StructError)
  }

  function U16(b: bytes, o: nat): Result<nat>
  {
    var s :- Raw(b, o, 2);
    Ok(Decode(s))
  }

  function U32(b: bytes, o: nat): Result<nat>
  {
    var s :- Raw(b, o, 4);
    Ok(Decode(s))
  }

  function I64(b: bytes, o: nat): Result<int>
  {
    var s :- Raw(b, o, 8);
    Ok(Signed64(Decode(s)))
  }

  /** A field written at `o` reads back from there. */
  predicate FieldAt(b: bytes, o: nat, field: bytes)
  {
    o + |field| <= |b| && b[o..o + |field|] == field
  }

  lemma ReadU16(b: bytes, o: nat, x: int)
    requires FieldAt(b, o, Encode(x, 2)) && 0 <= x < 0x1_0000
    ensures U16(b, o) == Ok(x)
  {
    Unsigned16(x);
  }

  lemma ReadU32(b: bytes, o: nat, x: int)
    requires FieldAt(b, o, Encode(x, 4)) && 0 <= x < 0x1_0000_0000
    ensures U32(b, o) == Ok(x)
  {
    Unsigned32(x);
  }

  lemma ReadI64(b: bytes, o: nat, x: int)
    requires FieldAt(b, o, Encode(x, 8)) && -MAX_I64 <= x < MAX_I64
    ensures I64(b, o) == Ok(x)
  {
    SignedRoundTrip64(x);
  }

  lemma FieldInField(s: bytes, pos: nat, b: bytes, o: nat, field: bytes)
    requires FieldAt(s, pos, b) && FieldAt(b, o, field)
    ensures FieldAt(s, pos + o, field)
  {
    var t := s[pos..pos + |b|];
    forall i | 0 <= i < |field|
      ensures s[pos + o + i] == field[i]
    {
      assert field[i] == b[o..o + |field|][i] == b[o + i];
      assert t[o + i] == s[pos + o + i];
    }
  }

  lemma FieldInPrefix(h: bytes, s: bytes, o: nat, field: bytes)
    requires h <= s && FieldAt(h, o, field)
    ensures FieldAt(s, o, field)
  {
    assert s[o..o + |field|] == h[o..o + |field|];
  }

  lemma MulLe(a: nat, b: nat, c: nat)
    requires a <= b
    ensures a * c <= b * c
  {
    assert b * c == a * c + (b - a) * c;
  }

  lemma QuotientOf(n: nat, d: nat)
    requires d > 0
    ensures d * n / d == n
  {
    var x := d * n;
    var q, r := x / d, x % d;
    assert x == q * d + r && 0 <= r < d;
    assert (q + 1) * d == q * d + d;
    assert (n + 1) * d == n * d + d;
    if q < n {
      MulLe(q + 1, n, d);
    }
    if q > n {
      MulLe(n + 1, q, d);
    }
  }

  // ---------------------------------------------------------------------------
  // Concatenations
  // ---------------------------------------------------------------------------

  function Flatten<T>(ss: seq<seq<T>>): seq<T>
  {
    if ss == [] then [] else ss[0] + Flatten(ss[1..])
  }

  lemma Assoc<T>(a: seq<T>, b: seq<T>, c: seq<T>)
    ensures a + b + c == a + (b + c)
  {
  }

  lemma FlattenCons<T>(x: seq<T>, rest: seq<seq<T>>)
    ensures Flatten([x] + rest) == x + Flatten(rest)
  {
    assert ([x] + rest)[1..] == rest;
  }

  lemma {:induction false} FlattenAppend<T>(a: seq<seq<T>>, b: seq<seq<T>>)
    ensures Flatten(a + b) == Flatten(a) + Flatten(b)
  {
    if a == [] {
      assert a + b == b;
    } else {
      hide Flatten;
      var x, rest := a[0], a[1..];
      FlattenAppend(rest, b);
      FlattenCons(x, rest);
      FlattenCons(x, rest + b);
      assert a == [x] + rest;
      Assoc([x], rest, b);
      Assoc(x, Flatten(rest), Flatten(b));
    }
  }

  lemma {:induction false} FlattenSnoc<T>(a: seq<seq<T>>, x: seq<T>)
    ensures Flatten(a + [x]) == Flatten(a) + x
  {
    FlattenAppend(a, [x]);
    assert Flatten([x]) == x + Flatten<T>([]);
  }

  lemma FlattenOne<T>(x: seq<T>)
    ensures Flatten([x]) == x
  {
    assert [x][1..] == [];
    assert x + [] == x;
  }

  ghost predicate Uniform<T>(ss: seq<seq<T>>, w: nat)
  {
    forall i :: 0 <= i < |ss| ==> |ss[i]| == w
  }

  lemma {:induction false} UniformLength<T>(ss: seq<seq<T>>, w: nat)
    requires Uniform(ss, w)
    ensures |Flatten(ss)| == w * |ss|
  {
    if ss != [] {
      UniformLength(ss[1..], w);
      assert w * |ss| == w + w * |ss[1..]|;
    }
  }

  /** Piece `i` of a uniform concatenation sits at `w*i`. */
  lemma {:induction false} UniformAt<T>(ss: seq<seq<T>>, w: nat, i: nat)
    requires Uniform(ss, w) && i < |ss|
    ensures 0 <= w * i <= w * i + w <= |Flatten(ss)|
    ensures Flatten(ss)[w * i..w * i + w] == ss[i]
  {
    UniformLength(ss, w);
    if i == 0 {
      assert w * i == 0;
      assert w * |ss| == w + w * (|ss| - 1);
    } else {
      UniformLength(ss[1..], w);
      UniformAt(ss[1..], w, i - 1);
      assert w * i == w + w * (i - 1);
      assert Flatten(ss)[w * i..w * i + w] == Flatten(ss[1..])[w * (i - 1)..w * (i - 1) + w];
    }
  }

  /** Peeling piece `i` off the front of what remains. */
  lemma {:induction false} FlattenStep<T>(out: seq<T>, ss: seq<seq<T>>, i: nat)
    requires i < |ss|
    ensures out + ss[i] + Flatten(ss[i + 1..]) == out + Flatten(ss[i..])
    ensures i + 1 == |ss| ==> out + ss[i] == out + Flatten(ss[i..])
  {
    assert ss[i..][1..] == ss[i + 1..];
    assert out + ss[i] + Flatten(ss[i + 1..]) == out + (ss[i] + Flatten(ss[i + 1..]));
    if i + 1 == |ss| {
      assert out + ss[i] + [] == out + ss[i];
    }
  }
}
