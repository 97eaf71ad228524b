/**
 Every pointer encoding of `unwind-pe.h`: a value printed in a format is found again, relative to what
 the encoding says, through a cell of memory when it is indirect.
 */
module Encodings {
  import opened Bytes
  import opened Bits
  import opened Leb128
  import opened Lsda

  /** What the low four bits of an encoding can hold. */
  predicate InFormat(enc: byte, v: int)
  {
    match enc % 16
    case 0 => 0 <= v < 0x1_0000_0000_0000_0000
    case 1 => 0 <= v < 0x1_0000_0000_0000_0000
    case 2 => 0 <= v < 0x1_0000
    case 3 => 0 <= v < 0x1_0000_0000
    case 4 => 0 <= v < 0x1_0000_0000_0000_0000
    case 9 => -0x8000_0000_0000_0000 <= v < 0x8000_0000_0000_0000
    case 10 => -0x8000 <= v < 0x8000
    case 11 => -0x8000_0000 <= v < 0x8000_0000
    case 12 => -0x8000_0000_0000_0000 <= v < 0x8000_0000_0000_0000
    case _ => false
  }

  /** A value printed in a format. */
  function InBytes(enc: byte, v: int): bytes
    requires InFormat(enc, v)
  {
    match enc % 16
    case 1 => EncodeU(v)
    case 2 => Encode(v, 2)
    case 3 => Encode(v, 4)
    case 9 => EncodeS(v)
    case 10 => Encode(v, 2)
    case 11 => Encode(v, 4)
    case _ => Encode(v, 8)
  }

  /** What bits 4 to 6 count from. */
  function Origin(enc: byte, b: Bases, p: nat): nat
  {
    match enc / 16 % 8
    case 1 => p
    case 2 => b.text
    case 3 => b.data
    case 4 => b.func
    case _ => 0
  }

  lemma PowerValues()
    ensures Pow2(15) == 0x8000 && Pow2(16) == 0x1_0000 && Pow2(31) == 0x8000_0000 && Pow2(32) == 0x1_0000_0000
  {
    assert Pow2(4) == 16 && Pow2(8) == 256 && Pow2(12) == 4096 && Pow2(20) == 0x10_0000 && Pow2(24) == 0x100_0000 && Pow2(28) == 0x1000_0000;
  }

  /** A fixed field gives the value modulo its size. */
  lemma FixedReads(mem: bytes, p: nat, v: int, w: nat)
    requires FieldAt(mem, p, Encode(v, w)) && w in {2, 4, 8}
    ensures Fixed(mem, p, w).Some? && Fixed(mem, p, w).value.next == p + w
    ensures Fixed(mem, p, w).value.val
         == v % (if w == 2 then 0x1_0000 else if w == 4 then 0x1_0000_0000 else 0x1_0000_0000_0000_0000)
  {
    hide Encode, Decode;
    var t := DecodeEncode(v, w);
    Pow256Values();
  }

  lemma Extends(v: int)
    ensures -0x8000 <= v < 0x8000 ==> Extend(v % 0x1_0000, 16) == v % WORD
    ensures -0x8000_0000 <= v < 0x8000_0000 ==> Extend(v % 0x1_0000_0000, 32) == v % WORD
  {
    hide Pow2;
    PowerValues();
  }

  lemma RawReads(mem: bytes, p: nat, enc: byte, v: int)
    requires InFormat(enc, v) && FieldAt(mem, p, InBytes(enc, v))
    ensures RawValue(mem, enc, p) == Some(Word(v % WORD, p + |InBytes(enc, v)|))
  {
    hide Fixed, Extend, Encode, EncodeU, EncodeS, Uleb, Sleb, FieldAt;
    match enc % 16 {
      case 1 => UlebField(mem, p, v);
      case 2 => FixedReads(mem, p, v, 2);
      case 3 => FixedReads(mem, p, v, 4);
      case 9 => SlebField(mem, p, v);
      case 10 => FixedReads(mem, p, v, 2); Extends(v);
      case 11 => FixedReads(mem, p, v, 4); Extends(v);
      case _ => FixedReads(mem, p, v, 8);
    }
  }

  /** A printed value is read as its distance from the origin of the encoding, a zero as zero, and an
      indirect one as the word in the cell it leads to. */
  lemma EncodedRoundTrip(mem: bytes, p: nat, enc: byte, b: Bases, v: int)
    requires enc != DW_EH_PE_ALIGNED && BaseOf(enc, b).Some? && InFormat(enc, v) && FieldAt(mem, p, InBytes(enc, v))
    ensures var r, next := ReadEncoded(mem, enc, BaseOf(enc, b).value, p), p + |InBytes(enc, v)|;
            var at := (Origin(enc, b, p) + v) % WORD;
            && (v == 0 ==> r == Some(Word(0, next)))
            && (v != 0 && enc < 128 ==> r == Some(Word(at, next)))
            && (v != 0 && enc >= 128 ==> forall x :: 0 <= x < WORD && FieldAt(mem, at, Encode(x, 8)) ==> r == Some(Word(x, next)))
  {
    hide RawValue, InBytes, Encode, FieldAt, Fixed;
    RawReads(mem, p, enc, v);
    var at := (Origin(enc, b, p) + v) % WORD;
    Offset(Origin(enc, b, p), v);
    forall x | 0 <= x < WORD && FieldAt(mem, at, Encode(x, 8))
      ensures Fixed(mem, at, 8) == Some(Word(x, at + 8))
    {
      FixedReads(mem, at, x, 8);
    }
  }

  lemma Offset(origin: nat, v: int)
    requires -MAX_I64 <= v < WORD
    ensures (v % WORD + origin) % WORD == (origin + v) % WORD
    ensures v % WORD == 0 <==> v == 0
  {
  }

  /** An aligned pointer is the word at the next multiple of eight. */
  lemma AlignedReads(mem: bytes, p: nat, q: nat, base: nat, x: nat)
    requires p <= q < p + 8 && q % 8 == 0 && x < WORD && FieldAt(mem, q, Encode(x, 8))
    ensures ReadEncoded(mem, DW_EH_PE_ALIGNED, base, p) == Some(Word(x, q + 8))
  {
    hide Encode, FieldAt, Fixed;
    FixedReads(mem, q, x, 8);
    assert (p + 7) / 8 * 8 == q;
  }
}
