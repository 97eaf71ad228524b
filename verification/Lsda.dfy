/**
 The language-specific data of a frame, decoded byte by byte as `raise-gcc.c` and `unwind-pe.h`
 do on a 64-bit little-endian target with DWARF tables. Addresses are indices into `mem`.
 */
module Lsda {
  import opened Bytes
  import opened Bits
  import opened Leb128

  // ---------------------------------------------------------------------------
  // Encoded values
  // ---------------------------------------------------------------------------

  /** A word read from memory and the position after it. */
  datatype Word = Word(val: nat, next: nat)
  datatype SignedWord = SignedWord(val: int, next: nat)

  /** A well-formed unsigned LEB128 value at `p`; None where the C code has no defined result. */
  function Uleb(mem: bytes, p: nat): (r: Option<Word>)
    ensures r.Some? ==> p < r.value.next && r.value.val < WORD
  {
    if Terminated(mem, p) && |EncodingAt(mem, p)| <= 10 && UValue(EncodingAt(mem, p)) < WORD
    then Some(Word(UValue(EncodingAt(mem, p)), EndOf(mem, p)))
    else None
  }

  function Sleb(mem: bytes, p: nat): (r: Option<SignedWord>)
    ensures r.Some? ==> p < r.value.next
  {
    if Terminated(mem, p) && |EncodingAt(mem, p)| <= 10 && -MAX_I64 <= SValue(EncodingAt(mem, p)) < MAX_I64
    then Some(SignedWord(SValue(EncodingAt(mem, p)), EndOf(mem, p)))
    else None
  }

  /** A fixed-size unsigned field. */
  function Fixed(mem: bytes, p: nat, w: nat): (r: Option<Word>)
    ensures r.Some? ==> r.value.next == p + w
  {
    if p + w <= |mem| then Some(Word(Decode(mem[p..p + w]), p + w)) else None
  }

  /** Sign extension of a field of `bits` bits to a word. */
  function Extend(x: nat, bits: nat): nat
    requires 1 <= bits <= 64
  {
    if x < Pow2(bits - 1) then x else (x + WORD - Pow2(bits)) % WORD
  }

  const DW_EH_PE_OMIT: byte := 0xff
  const DW_EH_PE_ALIGNED: byte := 0x50

  function Format(enc: byte): nat
  {
    enc % 16
  }

  /** Bits 4..6 of an encoding: what the value is relative to. */
  function Application(enc: byte): nat
  {
    enc / 16 % 8
  }

  predicate Indirect(enc: byte)
  {
    enc >= 128
  }

  /** The raw value of `read_encoded_value_with_base`, before any base is added. */
  function RawValue(mem: bytes, enc: byte, p: nat): (r: Option<Word>)
    ensures r.Some? ==> p < r.value.next
  {
    match Format(enc)
    case 0 => Fixed(mem, p, 8)
    case 1 => Uleb(mem, p)
    case 2 => Fixed(mem, p, 2)
    case 3 => Fixed(mem, p, 4)
    case 4 => Fixed(mem, p, 8)
    case 9 => (var s :- Sleb(mem, p); Some(Word(s.val % WORD, s.next)))
    case 10 => (var u :- Fixed(mem, p, 2); Some(Word(Extend(u.val, 16), u.next)))
    case 11 => (var u :- Fixed(mem, p, 4); Some(Word(Extend(u.val, 32), u.next)))
    case 12 => Fixed(mem, p, 8)
    case _ => None
  }

  /** `read_encoded_value_with_base` */
  function ReadEncoded(mem: bytes, enc: byte, base: nat, p: nat): (r: Option<Word>)
    ensures r.Some? ==> p < r.value.next
  {
    if enc == DW_EH_PE_ALIGNED then Fixed(mem, (p + 7) / 8 * 8, 8)
    else
      var raw :- RawValue(mem, enc, p);
      if raw.val == 0 then Some(raw)
      else
        var sum := (raw.val + if Application(enc) == 1 then p else base) % WORD;
        if !Indirect(enc) then Some(Word(sum, raw.next))
        else
          var cell :- Fixed(mem, sum, 8);
          Some(Word(cell.val, raw.next))
  }

  /** The bases of a frame's unwind context. */
  datatype Bases = Bases(text: nat, data: nat, func: nat)

  /** `base_of_encoded_value` */
  function BaseOf(enc: byte, b: Bases): Option<nat>
  {
    if enc == DW_EH_PE_OMIT then Some(0)
    else match Application(enc)
         case 0 => Some(0)
         case 1 => Some(0)
         case 2 => Some(b.text)
         case 3 => Some(b.data)
         case 4 => Some(b.func)
         case 5 => Some(0)
         case _ => None
  }

  /** `size_of_encoded_value` */
  function SizeOf(enc: byte): Option<nat>
  {
    if enc == DW_EH_PE_OMIT then Some(0)
    else match enc % 8
         case 0 => Some(8)
         case 2 => Some(2)
         case 3 => Some(4)
         case 4 => Some(8)
         case _ => None
  }

  /** A value of a fixed-size encoding takes exactly the size that the type table is indexed by. */
  lemma SizeMatchesRead(mem: bytes, enc: byte, base: nat, p: nat)
    requires enc != DW_EH_PE_ALIGNED && SizeOf(enc).Some? && ReadEncoded(mem, enc, base, p).Some?
    ensures ReadEncoded(mem, enc, base, p).value.next == p + SizeOf(enc).value
  {
    hide Uleb, Sleb, Fixed, Extend, Pow2;
    assert enc % 8 == Format(enc) % 8;
  }

  // ---------------------------------------------------------------------------
  // The region header
  // ---------------------------------------------------------------------------

  /** `region_descriptor`, for a frame that has language-specific data. */
  datatype Region = Region(base: nat, lpBase: nat, siteEnc: byte, sites: nat, actions: nat,
                           ttypeEnc: byte, ttypes: int, ttypeBase: nat)

  function ByteAt(mem: bytes, p: nat): Option<byte>
  {
    if p < |mem| then Some(mem[p]) else None
  }

  /** `get_region_description_for` */
  function RegionAt(mem: bytes, lsda: nat, regionStart: nat, b: Bases): Option<Region>
  {
    var lpEnc :- ByteAt(mem, lsda);
    var lp :- (if lpEnc == DW_EH_PE_OMIT then Some(Word(regionStart, lsda + 1))
               else var base :- BaseOf(lpEnc, b); ReadEncoded(mem, lpEnc, base, lsda + 1));
    var ttEnc :- ByteAt(mem, lp.next);
    var tt :- (if ttEnc == DW_EH_PE_OMIT then Some(Word(0, lp.next + 1))
               else var off :- Uleb(mem, lp.next + 1); Some(Word(off.next + off.val, off.next)));
    var ttBase :- BaseOf(ttEnc, b);
    var siteEnc :- ByteAt(mem, tt.next);
    var len :- Uleb(mem, tt.next + 1);
    Some(Region(regionStart, lp.val, siteEnc, len.next, len.next + len.val, ttEnc, tt.val, ttBase))
  }

  // ---------------------------------------------------------------------------
  // Call sites
  // ---------------------------------------------------------------------------

  datatype CallSite = CallSite(start: nat, len: nat, lp: nat, action: nat)
  datatype SiteAt = SiteAt(site: CallSite, next: nat)

  /** One call-site record. Call-site encodings are absolute displacements. */
  function ReadSite(mem: bytes, enc: byte, p: nat): (r: Option<SiteAt>)
    ensures r.Some? ==> p < r.value.next
  {
    var base :- BaseOf(enc, Bases(0, 0, 0));
    var start :- ReadEncoded(mem, enc, base, p);
    var len :- ReadEncoded(mem, enc, base, start.next);
    var lp :- ReadEncoded(mem, enc, base, len.next);
    var action :- Uleb(mem, lp.next);
    Some(SiteAt(CallSite(start.val, len.val, lp.val, action.val), action.next))
  }

  type SiteReader = nat -> Option<SiteAt>

  function SitesOf(mem: bytes, enc: byte): SiteReader
  {
    (p: nat) => ReadSite(mem, enc, p)
  }

  /** The bytes from `p` up to `end` are exactly these records. */
  ghost predicate TableAt(read: SiteReader, p: nat, end: nat, sites: seq<CallSite>)
    decreases |sites|
  {
    if sites == [] then end <= p
    else p < end && read(p).Some? && read(p).value.site == sites[0] && TableAt(read, read(p).value.next, end, sites[1..])
  }

  /** The table is sorted and its ranges do not overlap. */
  ghost predicate SortedDisjoint(sites: seq<CallSite>)
  {
    forall i, j :: 0 <= i < j < |sites| ==> sites[i].start + sites[i].len <= sites[j].start
  }

  predicate Covers(s: CallSite, base: nat, ip: nat)
  {
    base + s.start <= ip < base + s.start + s.len
  }

  /** No address of the table wraps around. */
  ghost predicate InAddressSpace(sites: seq<CallSite>, base: nat, lpBase: nat)
  {
    forall i :: 0 <= i < |sites| ==> base + sites[i].start + sites[i].len < WORD && lpBase + sites[i].lp < WORD
  }

  /** The reference: the record that covers `ip`. */
  ghost function Covering(sites: seq<CallSite>, base: nat, ip: nat): Option<CallSite>
  {
    if sites == [] then None
    else if Covers(sites[0], base, ip) then Some(sites[0])
    else Covering(sites[1..], base, ip)
  }

  /** In a disjoint table the covering record is unique, so "the" covering record is well
      defined. */
  lemma {:induction false} CoveringUnique(sites: seq<CallSite>, base: nat, ip: nat)
    requires SortedDisjoint(sites)
    ensures var c := Covering(sites, base, ip);
            && (c.Some? ==> c.value in sites && Covers(c.value, base, ip))
            && (forall i :: 0 <= i < |sites| && Covers(sites[i], base, ip) ==> c == Some(sites[i]))
  {
    if sites != [] {
      CoveringUnique(sites[1..], base, ip);
      forall i | 0 <= i < |sites| && Covers(sites[i], base, ip)
        ensures Covering(sites, base, ip) == Some(sites[i])
      {
        if i > 0 {
          assert sites[1..][i - 1] == sites[i];
          assert sites[0].start + sites[0].len <= sites[i].start;
        }
      }
    }
  }

  /** Nothing behind a record that starts past `ip` covers it. */
  lemma {:induction false} NothingBehind(sites: seq<CallSite>, base: nat, ip: nat)
    requires sites != [] && SortedDisjoint(sites) && ip < base + sites[0].start
    ensures Covering(sites, base, ip) == None
    decreases |sites|
  {
    if |sites| > 1 {
      assert sites[0].start + sites[0].len <= sites[1].start;
      NothingBehind(sites[1..], base, ip);
    }
  }

  /** `get_call_site_action_for`: the early-exit scan finds the covering record. */
  method FindSite(read: SiteReader, region: Region, ip: nat, ghost sites: seq<CallSite>) returns (r: Option<CallSite>)
    requires TableAt(read, region.sites, region.actions, sites) && SortedDisjoint(sites)
    requires InAddressSpace(sites, region.base, region.lpBase)
    ensures r == Covering(sites, region.base, ip)
  {
    var p: nat := region.sites;
    ghost var rest := sites;
    while p < region.actions
      invariant TableAt(read, p, region.actions, rest) && SortedDisjoint(rest)
      invariant InAddressSpace(rest, region.base, region.lpBase)
      invariant Covering(sites, region.base, ip) == Covering(rest, region.base, ip)
      decreases |rest|
    {
      var rec := read(p).value;
      var s := rec.site;
      p := rec.next;
      if ip < (region.base + s.start) % WORD {
        NothingBehind(rest, region.base, ip);
        return None;
      } else if ip < (region.base + s.start + s.len) % WORD {
        return Some(s);
      }
      rest := rest[1..];
    }
    return None;
  }

  // ---------------------------------------------------------------------------
  // Printing a call-site table
  // ---------------------------------------------------------------------------

  const DW_EH_PE_ULEB128: byte := 0x01

  function SiteBytes(s: CallSite): (r: bytes)
    ensures |r| >= 1
  {
    EncodeU(s.start) + EncodeU(s.len) + EncodeU(s.lp) + EncodeU(s.action)
  }

  function TableBytes(sites: seq<CallSite>): bytes
  {
    if sites == [] then [] else SiteBytes(sites[0]) + TableBytes(sites[1..])
  }

  ghost predicate SitesFit(sites: seq<CallSite>)
  {
    forall i :: 0 <= i < |sites| ==>
      sites[i].start < WORD && sites[i].len < WORD && sites[i].lp < WORD && sites[i].action < WORD
  }

  lemma UlebField(mem: bytes, p: nat, x: nat)
    requires x < WORD && FieldAt(mem, p, EncodeU(x))
    ensures Uleb(mem, p) == Some(Word(x, p + |EncodeU(x)|))
    ensures ReadEncoded(mem, DW_EH_PE_ULEB128, 0, p) == Some(Word(x, p + |EncodeU(x)|))
  {
    hide UValue, EncodeU;
    UlebRoundTrip(mem, p, x);
  }

  lemma SiteReads(mem: bytes, p: nat, s: CallSite)
    requires SitesFit([s]) && FieldAt(mem, p, SiteBytes(s))
    ensures ReadSite(mem, DW_EH_PE_ULEB128, p) == Some(SiteAt(s, p + |SiteBytes(s)|))
  {
    hide EncodeU, ReadEncoded, Uleb;
    assert [s][0] == s;
    var e1, e2, e3 := EncodeU(s.start), EncodeU(s.len), EncodeU(s.lp);
    SiteParts(mem, p, s);
    UlebField(mem, p, s.start);
    UlebField(mem, p + |e1|, s.len);
    UlebField(mem, p + |e1| + |e2|, s.lp);
    UlebField(mem, p + |e1| + |e2| + |e3|, s.action);
  }

  lemma SiteParts(mem: bytes, p: nat, s: CallSite)
    requires FieldAt(mem, p, SiteBytes(s))
    ensures var e1, e2, e3, e4 := EncodeU(s.start), EncodeU(s.len), EncodeU(s.lp), EncodeU(s.action);
            && FieldAt(mem, p, e1) && FieldAt(mem, p + |e1|, e2)
            && FieldAt(mem, p + |e1| + |e2|, e3) && FieldAt(mem, p + |e1| + |e2| + |e3|, e4)
            && |SiteBytes(s)| == |e1| + |e2| + |e3| + |e4|
  {
    hide EncodeU;
    var b, e1, e2, e3, e4 := SiteBytes(s), EncodeU(s.start), EncodeU(s.len), EncodeU(s.lp), EncodeU(s.action);
    FourParts(e1, e2, e3, e4);
    FieldInField(mem, p, b, 0, e1);
    FieldInField(mem, p, b, |e1|, e2);
    FieldInField(mem, p, b, |e1| + |e2|, e3);
    FieldInField(mem, p, b, |e1| + |e2| + |e3|, e4);
  }

  lemma FourParts(a: bytes, b: bytes, c: bytes, d: bytes)
    ensures var s := a + b + c + d;
            FieldAt(s, 0, a) && FieldAt(s, |a|, b) && FieldAt(s, |a| + |b|, c) && FieldAt(s, |a| + |b| + |c|, d)
  {
  }

  /** Every call-site table with 64-bit fields has a byte string that parses to it. */
  lemma {:induction false} TableRoundTrip(mem: bytes, p: nat, sites: seq<CallSite>)
    requires SitesFit(sites) && FieldAt(mem, p, TableBytes(sites))
    ensures TableAt(SitesOf(mem, DW_EH_PE_ULEB128), p, p + |TableBytes(sites)|, sites)
    decreases |sites|
  {
    hide SiteBytes, ReadSite;
    if sites != [] {
      var b, rest := SiteBytes(sites[0]), TableBytes(sites[1..]);
      assert FieldAt(TableBytes(sites), 0, b) && FieldAt(TableBytes(sites), |b|, rest);
      FieldInField(mem, p, TableBytes(sites), 0, b);
      FieldInField(mem, p, TableBytes(sites), |b|, rest);
      SiteReads(mem, p, sites[0]);
      TableRoundTrip(mem, p + |b|, sites[1..]);
    }
  }

  // ---------------------------------------------------------------------------
  // Action records
  // ---------------------------------------------------------------------------

  /** Filter and displacement of one record; the displacement counts from the byte after the
      filter. */
  datatype ActionAt = ActionAt(filter: int, disp: int, after: nat)

  function ReadAction(mem: bytes, p: nat): Option<ActionAt>
  {
    var f :- Sleb(mem, p);
    var d :- Sleb(mem, f.next);
    Some(ActionAt(f.val, d.val, f.next))
  }

  type ActionReader = nat -> Option<ActionAt>

  function ActionsOf(mem: bytes): ActionReader
  {
    (p: nat) => ReadAction(mem, p)
  }

  /** An acyclic chain of records from `p` on, as the list of its filters. */
  ghost predicate ChainAt(read: ActionReader, p: int, chain: seq<int>)
    decreases |chain|
  {
    && p >= 0 && chain != [] && read(p).Some?
    && read(p).value.filter == chain[0]
    && (if read(p).value.disp == 0 then |chain| == 1
        else |chain| > 1 && ChainAt(read, read(p).value.after + read(p).value.disp, chain[1..]))
  }

  /** How a choice answers; `NoEntry` when the type table has no readable entry for the filter,
      where the C code aborts. */
  datatype Match = NoMatch | MatchHandler | MatchUnhandler | NoEntry

  /** What a chain of filters calls for. */
  datatype Decision = DoNothing | DoCleanup | DoHandle(filter: int) | DoUnhandle(filter: int) | DoAbort

  function Matched(m: Match, filter: int): Decision
    requires m != NoMatch
  {
    match m
    case MatchHandler => DoHandle(filter)
    case MatchUnhandler => DoUnhandle(filter)
    case NoEntry => DoAbort
  }

  ghost predicate Hits(matches: int -> Match, f: int)
  {
    f > 0 && matches(f) != NoMatch
  }

  /** The first positive filter that does not leave the choice open. */
  ghost function FirstHit(chain: seq<int>, matches: int -> Match): (r: Option<int>)
    ensures r.Some? ==> Hits(matches, r.value)
  {
    if chain == [] then None
    else if Hits(matches, chain[0]) then Some(chain[0])
    else FirstHit(chain[1..], matches)
  }

  /** The reference: what the first positive filter with an answer says, else a cleanup if a zero
      filter is anywhere on the chain, else nothing. */
  ghost function Decide(chain: seq<int>, matches: int -> Match): Decision
  {
    match FirstHit(chain, matches)
    case Some(f) => Matched(matches(f), f)
    case None => if 0 in chain then DoCleanup else DoNothing
  }

  /** The chain walk of `get_action_description_for`: a cleanup is remembered and given up
      again when a handler turns up later. */
  method WalkChain(read: ActionReader, start: nat, matches: int -> Match, ghost chain: seq<int>) returns (d: Decision)
    requires ChainAt(read, start, chain)
    ensures d == Decide(chain, matches)
  {
    d := DoNothing;
    var p: int := start;
    ghost var k := 0;
    assert chain[0..] == chain;
    while true
      invariant 0 <= k < |chain| && ChainAt(read, p, chain[k..])
      invariant FirstHit(chain, matches) == FirstHit(chain[k..], matches)
      invariant d == if 0 in chain[..k] then DoCleanup else DoNothing
      decreases |chain| - k
    {
      var rec := read(p).value;
      assert rec.filter == chain[k];
      assert chain[..k + 1] == chain[..k] + [chain[k]];
      if rec.filter == 0 {
        d := DoCleanup;
      } else if rec.filter > 0 {
        var m := matches(rec.filter);
        if m != NoMatch {
          return Matched(m, rec.filter);
        }
      }
      assert chain[k..][1..] == chain[k + 1..];
      if rec.disp == 0 {
        assert chain[..k + 1] == chain && chain[k + 1..] == [];
        return;
      }
      p := rec.after + rec.disp;
      k := k + 1;
    }
  }

  // ---------------------------------------------------------------------------
  // Printing a chain and a header
  // ---------------------------------------------------------------------------

  /** Consecutive records; each but the last points one byte past its filter, at the next. */
  function ChainBytes(chain: seq<int>): (r: bytes)
    requires chain != []
  {
    if |chain| == 1 then EncodeS(chain[0]) + [0] else EncodeS(chain[0]) + [1] + ChainBytes(chain[1..])
  }

  lemma SlebField(mem: bytes, p: nat, x: int)
    requires -MAX_I64 <= x < MAX_I64 && FieldAt(mem, p, EncodeS(x))
    ensures Sleb(mem, p) == Some(SignedWord(x, p + |EncodeS(x)|))
  {
    hide SValue, EncodeS;
    SlebRoundTrip(mem, p, x);
  }

  lemma ActionReads(mem: bytes, p: nat, filter: int, disp: int)
    requires -MAX_I64 <= filter < MAX_I64 && 0 <= disp <= 1 && FieldAt(mem, p, EncodeS(filter) + [disp])
    ensures ReadAction(mem, p) == Some(ActionAt(filter, disp, p + |EncodeS(filter)|))
  {
    hide Sleb;
    var f, b := EncodeS(filter), EncodeS(filter) + [disp];
    assert FieldAt(b, 0, f) && FieldAt(b, |f|, [disp]);
    FieldInField(mem, p, b, 0, f);
    FieldInField(mem, p, b, |f|, [disp]);
    assert EncodeS(disp) == [disp];
    SlebField(mem, p, filter);
    SlebField(mem, p + |f|, disp);
  }

  /** Every chain of 64-bit filters has a byte string that parses to it. */
  lemma {:induction false} ChainRoundTrip(mem: bytes, p: nat, chain: seq<int>)
    requires chain != [] && (forall i :: 0 <= i < |chain| ==> -MAX_I64 <= chain[i] < MAX_I64)
    requires FieldAt(mem, p, ChainBytes(chain))
    ensures ChainAt(ActionsOf(mem), p, chain)
    decreases |chain|
  {
    hide EncodeS, ReadAction;
    if |chain| == 1 {
      ActionReads(mem, p, chain[0], 0);
    } else {
      var head, rest := EncodeS(chain[0]) + [1], ChainBytes(chain[1..]);
      assert FieldAt(ChainBytes(chain), 0, head) && FieldAt(ChainBytes(chain), |head|, rest);
      FieldInField(mem, p, ChainBytes(chain), 0, head);
      FieldInField(mem, p, ChainBytes(chain), |head|, rest);
      ActionReads(mem, p, chain[0], 1);
      ChainRoundTrip(mem, p + |head|, chain[1..]);
    }
  }

  /** Chains one after the other. */
  function ChainsBytes(chains: seq<seq<int>>): bytes
    requires forall i :: 0 <= i < |chains| ==> chains[i] != []
  {
    if chains == [] then [] else ChainBytes(chains[0]) + ChainsBytes(chains[1..])
  }

  ghost predicate ChainsFit(chains: seq<seq<int>>)
  {
    forall i :: 0 <= i < |chains| ==>
      chains[i] != [] && forall j :: 0 <= j < |chains[i]| ==> -MAX_I64 <= chains[i][j] < MAX_I64
  }

  /** Where chain `k` starts. */
  function ChainOffset(chains: seq<seq<int>>, k: nat): nat
    requires k <= |chains| && forall i :: 0 <= i < |chains| ==> chains[i] != []
  {
    if k == 0 then 0 else |ChainBytes(chains[0])| + ChainOffset(chains[1..], k - 1)
  }

  lemma {:induction false} ChainsRoundTrip(mem: bytes, p: nat, chains: seq<seq<int>>, k: nat)
    requires ChainsFit(chains) && k < |chains| && FieldAt(mem, p, ChainsBytes(chains))
    ensures ChainAt(ActionsOf(mem), p + ChainOffset(chains, k), chains[k])
    decreases k
  {
    hide ChainBytes, ChainAt, ActionsOf;
    TwoParts(mem, p, ChainBytes(chains[0]), ChainsBytes(chains[1..]));
    if k == 0 {
      ChainRoundTrip(mem, p, chains[0]);
    } else {
      ChainsRoundTrip(mem, p + |ChainBytes(chains[0])|, chains[1..], k - 1);
    }
  }

  lemma TwoParts(mem: bytes, p: nat, a: bytes, b: bytes)
    requires FieldAt(mem, p, a + b)
    ensures FieldAt(mem, p, a) && FieldAt(mem, p + |a|, b)
  {
    assert FieldAt(a + b, 0, a) && FieldAt(a + b, |a|, b);
    FieldInField(mem, p, a + b, 0, a);
    FieldInField(mem, p, a + b, |a|, b);
  }

  // ---------------------------------------------------------------------------
  // Printing all of it
  // ---------------------------------------------------------------------------

  const DW_EH_PE_ABSPTR: byte := 0x00
  const DW_EH_PE_UDATA8: byte := 0x04

  /** What a frame's data holds: a landing-pad base or none, the call sites, the action chains, and
      a type table or none. */
  datatype Layout = Layout(lpBase: Option<nat>, sites: seq<CallSite>, chains: seq<seq<int>>, types: Option<seq<nat>>)

  function LpBytes(lp: Option<nat>): bytes
  {
    match lp
    case None => [DW_EH_PE_OMIT]
    case Some(x) => [DW_EH_PE_ABSPTR] + Encode(x, 8)
  }

  /** The type table is read backwards from its end: filter 1 names the last entry. */
  function TypeBytes(types: seq<nat>): (r: bytes)
    ensures |r| == 8 * |types|
  {
    if types == [] then [] else TypeBytes(types[1..]) + Encode(types[0], 8)
  }

  function BodyBytes(sites: seq<CallSite>, chains: seq<seq<int>>): bytes
    requires forall i :: 0 <= i < |chains| ==> chains[i] != []
  {
    [DW_EH_PE_ULEB128] + (EncodeU(|TableBytes(sites)|) + (TableBytes(sites) + ChainsBytes(chains)))
  }

  /** The part behind the landing-pad base. */
  function TypedBytes(types: Option<seq<nat>>, body: bytes): bytes
  {
    match types
    case None => [DW_EH_PE_OMIT] + body
    case Some(ts) => [DW_EH_PE_UDATA8] + (EncodeU(|body| + 8 * |ts|) + (body + TypeBytes(ts)))
  }

  function LsdaBytes(l: Layout): bytes
    requires forall i :: 0 <= i < |l.chains| ==> l.chains[i] != []
  {
    LpBytes(l.lpBase) + TypedBytes(l.types, BodyBytes(l.sites, l.chains))
  }

  ghost predicate LayoutFits(l: Layout)
  {
    && SitesFit(l.sites) && ChainsFit(l.chains)
    && (l.lpBase.Some? ==> l.lpBase.value < WORD)
    && |BodyBytes(l.sites, l.chains)| + (if l.types.Some? then 8 * |l.types.value| else 0) < WORD
    && (l.types.Some? ==> forall i :: 0 <= i < |l.types.value| ==> l.types.value[i] < WORD)
  }

  lemma WordField(mem: bytes, p: nat, x: nat)
    requires x < WORD && FieldAt(mem, p, Encode(x, 8))
    ensures Fixed(mem, p, 8) == Some(Word(x, p + 8))
  {
    var t := DecodeEncode(x, 8);
    Pow256Values();
  }

  lemma Udata8Reads(mem: bytes, p: nat, x: nat)
    requires x < WORD && FieldAt(mem, p, Encode(x, 8))
    ensures ReadEncoded(mem, DW_EH_PE_UDATA8, 0, p) == Some(Word(x, p + 8))
    ensures ReadEncoded(mem, DW_EH_PE_ABSPTR, 0, p) == Some(Word(x, p + 8))
  {
    hide Encode, Fixed, FieldAt;
    WordField(mem, p, x);
  }

  lemma LpReads(mem: bytes, p: nat, lp: Option<nat>, start: nat, b: Bases)
    requires FieldAt(mem, p, LpBytes(lp)) && (lp.Some? ==> lp.value < WORD)
    ensures match lp
            case None => ByteAt(mem, p) == Some(DW_EH_PE_OMIT)
            case Some(x) =>
              ByteAt(mem, p) == Some(DW_EH_PE_ABSPTR) && ReadEncoded(mem, DW_EH_PE_ABSPTR, 0, p + 1) == Some(Word(x, p + 9))
  {
    hide Encode, ByteAt, ReadEncoded, FieldAt;
    match lp {
      case None => HeaderByte(mem, p, DW_EH_PE_OMIT);
      case Some(x) =>
        TwoParts(mem, p, [DW_EH_PE_ABSPTR], Encode(x, 8));
        HeaderByte(mem, p, DW_EH_PE_ABSPTR);
        Udata8Reads(mem, p + 1, x);
    }
  }

  /** The site encoding, the table length and the two tables, as the header decoder finds them. */
  lemma BodyReads(mem: bytes, p: nat, sites: seq<CallSite>, chains: seq<seq<int>>)
    requires SitesFit(sites) && ChainsFit(chains)
    requires FieldAt(mem, p, BodyBytes(sites, chains)) && |TableBytes(sites)| < WORD
    ensures ByteAt(mem, p) == Some(DW_EH_PE_ULEB128)
    ensures Uleb(mem, p + 1).Some?
    ensures var len := Uleb(mem, p + 1).value;
            && len.val == |TableBytes(sites)|
            && TableAt(SitesOf(mem, DW_EH_PE_ULEB128), len.next, len.next + len.val, sites)
            && FieldAt(mem, len.next + len.val, ChainsBytes(chains))
  {
    hide EncodeU, TableBytes, ChainsBytes, TableAt, SitesOf, SitesFit, Uleb, ByteAt, FieldAt, ReadEncoded;
    var table, n := TableBytes(sites), |TableBytes(sites)|;
    TwoParts(mem, p, [DW_EH_PE_ULEB128], EncodeU(n) + (table + ChainsBytes(chains)));
    HeaderByte(mem, p, DW_EH_PE_ULEB128);
    TwoParts(mem, p + 1, EncodeU(n), table + ChainsBytes(chains));
    TwoParts(mem, p + 1 + |EncodeU(n)|, table, ChainsBytes(chains));
    UlebField(mem, p + 1, n);
    TableRoundTrip(mem, p + 1 + |EncodeU(n)|, sites);
  }

  lemma {:induction false} TypeEntryAt(mem: bytes, p: nat, types: seq<nat>, i: nat)
    requires FieldAt(mem, p, TypeBytes(types)) && 1 <= i <= |types|
    ensures FieldAt(mem, p + 8 * (|types| - i), Encode(types[i - 1], 8))
    decreases i
  {
    hide Encode;
    TwoParts(mem, p, TypeBytes(types[1..]), Encode(types[0], 8));
    if i > 1 {
      TypeEntryAt(mem, p, types[1..], i - 1);
    }
  }

  /** What the decoder makes of the printed data, up to the type table. */
  ghost predicate RegionOf(mem: bytes, r: Region, l: Layout, start: nat)
    requires ChainsFit(l.chains)
  {
    && r.base == start && r.lpBase == (if l.lpBase.Some? then l.lpBase.value else start)
    && r.siteEnc == DW_EH_PE_ULEB128
    && TableAt(SitesOf(mem, r.siteEnc), r.sites, r.actions, l.sites)
    && FieldAt(mem, r.actions, ChainsBytes(l.chains))
    && match l.types
       case None => r.ttypeEnc == DW_EH_PE_OMIT
       case Some(ts) =>
         && r.ttypeEnc == DW_EH_PE_UDATA8 && r.ttypeBase == 0 && r.ttypes >= 8 * |ts|
         && FieldAt(mem, r.ttypes - 8 * |ts|, TypeBytes(ts))
  }

  /** Printed data, with or without landing-pad base and type table, are found again. */
  lemma RegionRoundTrip(mem: bytes, lsda: nat, start: nat, b: Bases, l: Layout)
    requires LayoutFits(l) && FieldAt(mem, lsda, LsdaBytes(l))
    ensures RegionAt(mem, lsda, start, b).Some? && RegionOf(mem, RegionAt(mem, lsda, start, b).value, l, start)
  {
    hide TypedBytes, LpBytes, BodyBytes, TypeBytes, Encode, EncodeU, TableBytes, ChainsBytes, TableAt, SitesOf, SitesFit, Uleb, ByteAt, ReadEncoded, FieldAt;
    var lp, body := LpBytes(l.lpBase), BodyBytes(l.sites, l.chains);
    TwoParts(mem, lsda, lp, TypedBytes(l.types, body));
    LpReads(mem, lsda, l.lpBase, start, b);
    LpLength(l.lpBase);
    TableShorter(l.sites, l.chains);
    TypesRead(mem, lsda + |lp|, l.types, body);
    BodyReads(mem, BodyAt(lsda + |lp|, l.types, body), l.sites, l.chains);
  }

  /** Where the part behind the type-table offset starts. */
  function BodyAt(p: nat, types: Option<seq<nat>>, body: bytes): nat
  {
    match types
    case None => p + 1
    case Some(ts) => p + 1 + |EncodeU(|body| + 8 * |ts|)|
  }

  lemma TypesRead(mem: bytes, p: nat, types: Option<seq<nat>>, body: bytes)
    requires FieldAt(mem, p, TypedBytes(types, body))
    requires |body| + (if types.Some? then 8 * |types.value| else 0) < WORD
    ensures FieldAt(mem, BodyAt(p, types, body), body)
    ensures match types
            case None => ByteAt(mem, p) == Some(DW_EH_PE_OMIT)
            case Some(ts) =>
              && ByteAt(mem, p) == Some(DW_EH_PE_UDATA8)
              && Uleb(mem, p + 1) == Some(Word(|body| + 8 * |ts|, BodyAt(p, types, body)))
              && FieldAt(mem, BodyAt(p, types, body) + |body|, TypeBytes(ts))
  {
    hide TypeBytes, EncodeU, Uleb, ByteAt, ReadEncoded, FieldAt;
    match types {
      case None =>
        TwoParts(mem, p, [DW_EH_PE_OMIT], body);
        HeaderByte(mem, p, DW_EH_PE_OMIT);
      case Some(ts) =>
        TypeTableRead(mem, p, |body| + 8 * |ts|, body, TypeBytes(ts));
    }
  }

  lemma TypeTableRead(mem: bytes, p: nat, n: nat, body: bytes, table: bytes)
    requires n < WORD && FieldAt(mem, p, [DW_EH_PE_UDATA8] + (EncodeU(n) + (body + table)))
    ensures ByteAt(mem, p) == Some(DW_EH_PE_UDATA8)
    ensures Uleb(mem, p + 1) == Some(Word(n, p + 1 + |EncodeU(n)|))
    ensures FieldAt(mem, p + 1 + |EncodeU(n)|, body) && FieldAt(mem, p + 1 + |EncodeU(n)| + |body|, table)
  {
    hide EncodeU, Uleb, ByteAt, ReadEncoded, FieldAt;
    TwoParts(mem, p, [DW_EH_PE_UDATA8], EncodeU(n) + (body + table));
    HeaderByte(mem, p, DW_EH_PE_UDATA8);
    TwoParts(mem, p + 1, EncodeU(n), body + table);
    UlebField(mem, p + 1, n);
    TwoParts(mem, p + 1 + |EncodeU(n)|, body, table);
  }

  lemma LpLength(lp: Option<nat>)
    ensures |LpBytes(lp)| == if lp.Some? then 9 else 1
  {
  }

  lemma TableShorter(sites: seq<CallSite>, chains: seq<seq<int>>)
    requires ChainsFit(chains)
    ensures |TableBytes(sites)| < |BodyBytes(sites, chains)|
  {
  }

  lemma HeaderByte(mem: bytes, p: nat, x: byte)
    requires FieldAt(mem, p, [x])
    ensures ByteAt(mem, p) == Some(x)
  {
    assert mem[p] == mem[p..p + 1][0];
  }
}
