/**
 Inodes and their small_data attributes: the writer of `tools/mkbefs.py`, the attribute walk of
 `tools/befs_dump.py`, and the inode fields the readers use.
 */
module Inodes {
  import opened Bytes
  import opened BPlusTree
  import opened BlockRuns

  const INODE_MAGIC1: nat := 0x3BBE0AD9
  const INODE_TIME: nat := 1735689600 * 0x1_0000
  const S_IFDIR: nat := 0x4000
  const S_IFREG: nat := 0x8000
  const S_STR_INDEX: nat := 0x100_0000
  const S_LONG_LONG_INDEX: nat := 0x20_0000
  const S_INDEX_DIR: nat := 0x2000_0000
  const SMALL_DATA: nat := 232

  // ---------------------------------------------------------------------------
  // Attributes
  // ---------------------------------------------------------------------------

  datatype Attr = Attr(kind: nat, name: bytes, data: bytes)

  function AttrHeader(a: Attr): (r: bytes)
    ensures |r| == 8
  {
    Encode(a.kind, 4) + Encode(|a.name|, 2) + Encode(|a.data|, 2)
  }

  function AttrBytes(a: Attr): (r: bytes)
    ensures |r| == 12 + |a.name| + |a.data|
  {
    AttrHeader(a) + a.name + Zeros(3) + a.data + Zeros(1)
  }

  /** `small_data`: the attributes, then a zeroed header. */
  function SmallData(attrs: seq<Attr>): (r: bytes)
    ensures |r| >= 8
  {
    if attrs == [] then Zeros(8) else AttrBytes(attrs[0]) + SmallData(attrs[1..])
  }

  method WriteSmallData(attrs: seq<Attr>) returns (out: bytes)
    ensures out == SmallData(attrs)
  {
    out := [];
    var i := 0;
    assert attrs[0..] == attrs;
    while i < |attrs|
      invariant 0 <= i <= |attrs|
      invariant SmallData(attrs) == out + SmallData(attrs[i..])
    {
      var a := attrs[i];
      assert attrs[i..][1..] == attrs[i + 1..];
      assert out + (AttrBytes(a) + SmallData(attrs[i + 1..])) == out + AttrBytes(a) + SmallData(attrs[i + 1..]);
      out := out + AttrBytes(a);
      i := i + 1;
    }
    out := out + Zeros(8);
  }

  /** Names and data are followed by NUL, as C readers of the format need. */
  lemma AttrTerminated(a: Attr)
    ensures FieldAt(AttrBytes(a), 8 + |a.name|, [0, 0, 0]) && FieldAt(AttrBytes(a), 11 + |a.name| + |a.data|, [0])
  {
    hide AttrHeader;
  }

  datatype AttrStep = AttrEnd | AttrAt(attr: Attr, next: nat)

  /** One turn of the attribute walk at `pos`. */
  function ReadAttr(node: bytes, pos: nat): (r: Result<AttrStep>)
    ensures r.Ok? && r.value.AttrAt? ==> r.value.next > pos
  {
    var kind :- U32(node, pos);
    var nsz :- U16(node, pos + 4);
    var dsz :- U16(node, pos + 6);
    if nsz == 0 then Ok(AttrEnd)
    else
      var name := Slice(node, pos + 8, pos + 8 + nsz);
      var data := Slice(node, pos + 8 + nsz + 3, pos + 8 + nsz + 3 + dsz);
      Ok(AttrAt(Attr(kind, name, data), pos + 8 + nsz + 3 + dsz + 1))
  }

  function AttrsFrom(node: bytes, inodeSize: nat, pos: nat, out: seq<Attr>): Result<seq<Attr>>
    decreases inodeSize - pos
  {
    if pos + 8 > inodeSize then Ok(out)
    else
      var step :- ReadAttr(node, pos);
      if step.AttrEnd? then Ok(out) else AttrsFrom(node, inodeSize, step.next, out + [step.attr])
  }

  /** `Befs.attrs` */
  method ReadAttrs(node: bytes, inodeSize: nat) returns (r: Result<seq<Attr>>)
    ensures r == AttrsFrom(node, inodeSize, SMALL_DATA, [])
  {
    var out: seq<Attr>, pos: nat := [], SMALL_DATA;
    while pos + 8 <= inodeSize
      invariant AttrsFrom(node, inodeSize, SMALL_DATA, []) == AttrsFrom(node, inodeSize, pos, out)
      decreases inodeSize - pos
    {
      var step :- ReadAttr(node, pos);
      if step.AttrEnd? {
        return Ok(out);
      }
      out, pos := out + [step.attr], step.next;
    }
    return Ok(out);
  }

  /** The attributes before the first nameless one, with type codes of 32 bits. */
  function Named(attrs: seq<Attr>): seq<Attr>
  {
    if attrs == [] || attrs[0].name == [] then [] else [Narrowed(attrs[0])] + Named(attrs[1..])
  }

  function Narrowed(a: Attr): Attr
  {
    a.(kind := a.kind % 0x1_0000_0000)
  }

  ghost predicate Storable(attrs: seq<Attr>)
  {
    forall a :: a in attrs ==> |a.name| < 0x1_0000 && |a.data| < 0x1_0000
  }

  lemma KindReads(node: bytes, pos: nat, kind: nat)
    requires FieldAt(node, pos, Encode(kind, 4))
    ensures U32(node, pos) == Ok(kind % 0x1_0000_0000)
  {
    hide Encode, Decode;
    var t := DecodeEncode(kind, 4);
    Pow256Values();
  }

  lemma AttrHeaderReads(node: bytes, pos: nat, a: Attr)
    requires FieldAt(node, pos, AttrHeader(a))
    requires |a.name| < 0x1_0000 && |a.data| < 0x1_0000
    ensures U32(node, pos) == Ok(a.kind % 0x1_0000_0000) && U16(node, pos + 4) == Ok(|a.name|) && U16(node, pos + 6) == Ok(|a.data|)
  {
    hide Encode, U32, U16;
    var h := AttrHeader(a);
    assert FieldAt(h, 0, Encode(a.kind, 4)) && FieldAt(h, 4, Encode(|a.name|, 2)) && FieldAt(h, 6, Encode(|a.data|, 2));
    FieldInField(node, pos, h, 0, Encode(a.kind, 4));
    FieldInField(node, pos, h, 4, Encode(|a.name|, 2));
    FieldInField(node, pos, h, 6, Encode(|a.data|, 2));
    KindReads(node, pos, a.kind);
    ReadU16(node, pos + 4, |a.name|);
    ReadU16(node, pos + 6, |a.data|);
  }

  lemma AttrParts(node: bytes, pos: nat, a: Attr)
    requires FieldAt(node, pos, AttrBytes(a))
    ensures FieldAt(node, pos, AttrHeader(a))
    ensures Slice(node, pos + 8, pos + 8 + |a.name|) == a.name
    ensures Slice(node, pos + 8 + |a.name| + 3, pos + 8 + |a.name| + 3 + |a.data|) == a.data
  {
    hide AttrHeader, Encode;
    var b := AttrBytes(a);
    assert FieldAt(b, 0, AttrHeader(a)) && FieldAt(b, 8, a.name) && FieldAt(b, 11 + |a.name|, a.data);
    FieldInField(node, pos, b, 0, AttrHeader(a));
    FieldInField(node, pos, b, 8, a.name);
    FieldInField(node, pos, b, 11 + |a.name|, a.data);
  }

  lemma AttrReads(node: bytes, pos: nat, a: Attr)
    requires FieldAt(node, pos, AttrBytes(a))
    requires |a.name| < 0x1_0000 && |a.data| < 0x1_0000
    ensures ReadAttr(node, pos) == Ok(if a.name == [] then AttrEnd else AttrAt(Narrowed(a), pos + |AttrBytes(a)|))
  {
    AttrParts(node, pos, a);
    AttrHeaderReads(node, pos, a);
  }

  lemma TerminatorReads(node: bytes, pos: nat)
    requires FieldAt(node, pos, Zeros(8))
    ensures ReadAttr(node, pos) == Ok(AttrEnd)
  {
    var none := Attr(0, [], []);
    ZeroHeader();
    AttrHeaderReads(node, pos, none);
  }

  lemma ZeroHeader()
    ensures AttrHeader(Attr(0, [], [])) == Zeros(8)
  {
    EncodeZero(4);
    EncodeZero(2);
  }

  lemma {:induction false} EncodeZero(w: nat)
    ensures Encode(0, w) == Zeros(w)
  {
    if w > 0 {
      EncodeZero(w - 1);
    }
  }

  /** The walk returns the attributes up to the first nameless one, whatever bytes names and
      data contain. */
  lemma {:induction false} AttrsRead(node: bytes, pos: nat, attrs: seq<Attr>, out: seq<Attr>)
    requires FieldAt(node, pos, SmallData(attrs)) && Storable(attrs)
    ensures AttrsFrom(node, |node|, pos, out) == Ok(out + Named(attrs))
    decreases attrs
  {
    hide ReadAttr, AttrBytes;
    if attrs == [] {
      TerminatorReads(node, pos);
      assert out + [] == out;
    } else {
      var a := attrs[0];
      SmallDataSplit(node, pos, attrs);
      AttrReads(node, pos, a);
      if a.name == [] {
        assert out + [] == out;
      } else {
        var kept := Narrowed(a);
        AttrsRead(node, pos + |AttrBytes(a)|, attrs[1..], out + [kept]);
        assert out + [kept] + Named(attrs[1..]) == out + ([kept] + Named(attrs[1..]));
      }
    }
  }

  lemma SmallDataSplit(node: bytes, pos: nat, attrs: seq<Attr>)
    requires attrs != [] && FieldAt(node, pos, SmallData(attrs))
    ensures FieldAt(node, pos, AttrBytes(attrs[0]))
    ensures FieldAt(node, pos + |AttrBytes(attrs[0])|, SmallData(attrs[1..]))
  {
    var sd, a, rest := SmallData(attrs), AttrBytes(attrs[0]), SmallData(attrs[1..]);
    assert sd == a + rest;
    FieldInField(node, pos, sd, 0, a);
    FieldInField(node, pos, sd, |a|, rest);
  }

  lemma NarrowedKeeps(a: Attr)
    ensures Narrowed(a) == a <==> a.kind < 0x1_0000_0000
  {
  }

  lemma {:induction false} NamedIsAll(attrs: seq<Attr>)
    ensures Named(attrs) == attrs <==> forall a :: a in attrs ==> a.name != [] && a.kind < 0x1_0000_0000
    ensures |Named(attrs)| <= |attrs|
  {
    hide Narrowed;
    if attrs != [] {
      var a, rest := attrs[0], attrs[1..];
      NamedIsAll(rest);
      NarrowedKeeps(a);
      assert attrs == [a] + rest;
      if a.name != [] {
        assert Named(attrs)[0] == Narrowed(a) && Named(attrs)[1..] == Named(rest);
        assert Named(attrs) == attrs <==> Narrowed(a) == a && Named(rest) == rest;
      }
    }
  }

  // ---------------------------------------------------------------------------
  // The inode block
  // ---------------------------------------------------------------------------

  /** Everything an inode is built from. */
  datatype Meta = Meta(block: nat, mode: nat, parent: nat, attrs: seq<Attr>, runs: seq<Run>, size: nat, typeCode: nat)

  ghost predicate RunsOk(runs: seq<Run>)
  {
    forall r :: r in runs ==> 0 <= r.start < MAX_BLOCKS && 0 < r.len < 0x1_0000
  }

  /** Bytes 0..72 of an inode. */
  function InodeHead(m: Meta, blk: nat): (r: bytes)
    ensures |r| == 72
  {
    Encode(INODE_MAGIC1, 4) + Rblk(m.block, 1) + Encode(0, 4) + Encode(0, 4) + Encode(m.mode, 4) + Encode(1, 4)
      + Encode(INODE_TIME, 8) + Encode(INODE_TIME, 8) + Rblk(m.parent, 1) + Rblk(0, 0) + Encode(m.typeCode, 4)
      + Encode(blk, 4) + Encode(0, 4)
  }

  /** The part of an inode before its attributes. */
  function InodeFixed(m: Meta, blk: nat): (r: Result<bytes>)
    ensures r.Ok? ==> |r.value| == SMALL_DATA
    ensures r.Ok? <==> |m.runs| <= DIRECT
  {
    var stream :- DataStream(m.runs, m.size, blk);
    Ok(InodeHead(m, blk) + stream + Encode(INODE_TIME, 8) + Zeros(8))
  }

  /** `inode`: attributes that run past the block make the result longer than the block. */
  function InodeBytes(m: Meta, blk: nat): (r: Result<bytes>)
    requires blk >= SMALL_DATA
    ensures r.Ok? <==> |m.runs| <= DIRECT
    ensures r.Ok? ==> |r.value| >= blk && (|r.value| == blk <==> SMALL_DATA + |SmallData(m.attrs)| <= blk)
  {
    var fixed :- InodeFixed(m, blk);
    Ok(Splice(fixed + Zeros(blk - SMALL_DATA), SMALL_DATA, SMALL_DATA + |SmallData(m.attrs)|, SmallData(m.attrs)))
  }

  ghost predicate AttrsFit(attrs: seq<Attr>, blk: nat)
  {
    SMALL_DATA + |SmallData(attrs)| <= blk
  }

  /** `Befs.attrs` inverts `small_data` exactly on the lists without a nameless attribute and with type
      codes of 32 bits. */
  lemma AttrsRoundTrip(m: Meta, blk: nat)
    requires ValidBlk(blk) && InodeBytes(m, blk).Ok?
    requires AttrsFit(m.attrs, blk)
    ensures var r := AttrsFrom(InodeBytes(m, blk).value, blk, SMALL_DATA, []);
            && r == Ok(Named(m.attrs))
            && (r == Ok(m.attrs) <==> forall a :: a in m.attrs ==> a.name != [] && a.kind < 0x1_0000_0000)
  {
    var node, sd := InodeBytes(m, blk).value, SmallData(m.attrs);
    assert node[SMALL_DATA..SMALL_DATA + |sd|] == sd;
    FitStorable(m.attrs, blk);
    AttrsRead(node, SMALL_DATA, m.attrs, []);
    assert [] + Named(m.attrs) == Named(m.attrs);
    NamedIsAll(m.attrs);
  }

  lemma {:induction false} FitStorable(attrs: seq<Attr>, blk: nat)
    requires SMALL_DATA + |SmallData(attrs)| <= blk <= 0x1_0000
    ensures Storable(attrs)
  {
    if attrs != [] {
      FitStorable(attrs[1..], blk);
      assert attrs == [attrs[0]] + attrs[1..];
    }
  }
}
