/**
 The two independent readers of a directory stream, `Vol.tree_entries` of `tools/befs_get.py`
 and `Befs.btree_entries` of `tools/befs_dump.py`, and what they return on a stream that the
 writer built.
 */
module TreeReaders {
  import opened Bytes
  import opened BPlusTree

  // ---------------------------------------------------------------------------
  // Parsing one node
  // ---------------------------------------------------------------------------

  datatype ParsedEntry = ParsedEntry(entry: Entry, keyLen: nat)

  /** Entry `j` of a node and its key length: key bytes from offset `koff`, lengths at
      `pos`, values after the lengths. */
  function EntryAt(nd: bytes, keys: bytes, pos: nat, count: nat, j: nat, koff: nat): Result<ParsedEntry>
  {
    var len :- U16(nd, pos + 2 * j);
    var val :- I64(nd, pos + 2 * count + 8 * j);
    Ok(ParsedEntry(Entry(Slice(keys, koff, koff + len), val), len))
  }

  /** `out` followed by the entries from `j` on. */
  function EntriesFrom(nd: bytes, keys: bytes, pos: nat, count: nat, j: nat, koff: nat, out: seq<Entry>): Result<seq<Entry>>
    requires j <= count
    decreases count - j
  {
    if j == count then Ok(out)
    else
      var p :- EntryAt(nd, keys, pos, count, j, koff);
      EntriesFrom(nd, keys, pos, count, j + 1, koff + p.keyLen, out + [p.entry])
  }

  function NodeEntries(nd: bytes): Result<seq<Entry>>
  {
    var count :- U16(nd, 24);
    var klen :- U16(nd, 26);
    EntriesFrom(nd, Slice(nd, 28, 28 + klen), KeyAlign(28 + klen), count, 0, 0, [])
  }

  /** The parsing loop shared by both tools. */
  method ParseEntries(nd: bytes, keys: bytes, pos: nat, count: nat) returns (r: Result<seq<Entry>>)
    ensures r == EntriesFrom(nd, keys, pos, count, 0, 0, [])
  {
    var out: seq<Entry>, koff: nat, j: nat := [], 0, 0;
    while j < count
      invariant j <= count
      invariant EntriesFrom(nd, keys, pos, count, 0, 0, []) == EntriesFrom(nd, keys, pos, count, j, koff, out)
    {
      var p :- EntryAt(nd, keys, pos, count, j, koff);
      out, koff, j := out + [p.entry], koff + p.keyLen, j + 1;
    }
    return Ok(out);
  }

  // ---------------------------------------------------------------------------
  // befs_get: Vol.tree_entries
  // ---------------------------------------------------------------------------

  const GET_DEPTH_CAP: nat := 8
  const GET_CHAIN_CAP: nat := 100000

  function Page(stream: bytes, off: int, blk: nat): bytes
  {
    Slice(stream, off, off + blk)
  }

  datatype Step = AtLeaf | ToChild(off: int)

  /** One step of the descent: stop at a leaf, or follow the first child. */
  function GetStep(nd: bytes): Result<Step>
  {
    var overflow :- I64(nd, 16);
    if overflow == NULL_LINK then Ok(AtLeaf)
    else
      var count :- U16(nd, 24);
      var klen :- U16(nd, 26);
      var child :- I64(nd, KeyAlign(28 + klen) + 2 * count);
      Ok(ToChild(child))
  }

  function StepReader(stream: bytes, blk: nat): int -> Result<Step>
  {
    off => GetStep(Page(stream, off, blk))
  }

  function GetDescend(read: int -> Result<Step>, off: int, cap: nat): Result<int>
    decreases cap, off
  {
    if cap == 0 then Err(DescentTooDeep)
    else
      var step :- read(off);
      if step.AtLeaf? then Ok(off) else GetDescend(read, step.off, cap - 1)
  }

  datatype ParsedLeaf = ParsedLeaf(entries: seq<Entry>, right: int)

  /** The entries of a leaf and its right link. */
  function GetLeaf(nd: bytes): Result<ParsedLeaf>
  {
    var es :- NodeEntries(nd);
    var right :- I64(nd, 8);
    Ok(ParsedLeaf(es, right))
  }

  /** `out` followed by the entries of the leaves from `off` on. */
  function GetChain(read: int -> Result<ParsedLeaf>, off: int, cap: nat, out: seq<Entry>): Result<seq<Entry>>
    decreases cap, off
  {
    if cap == 0 then Err(ChainTooLong)
    else
      var leaf :- read(off);
      if leaf.right == NULL_LINK then Ok(out + leaf.entries)
      else GetChain(read, leaf.right, cap - 1, out + leaf.entries)
  }

  function LeafReader(stream: bytes, blk: nat): int -> Result<ParsedLeaf>
  {
    off => GetLeaf(Page(stream, off, blk))
  }

  function GetEntries(stream: bytes, blk: nat): Result<seq<Entry>>
  {
    var magic :- U32(stream, 0);
    if magic != BTREE_MAGIC then Err(BadMagic)
    else
      var root :- I64(stream, 16);
      var leaf :- GetDescend(StepReader(stream, blk), root, GET_DEPTH_CAP);
      GetChain(LeafReader(stream, blk), leaf, GET_CHAIN_CAP, [])
  }

  /** The descent loop of `tree_entries` and of the writer's self-check. */
  method DescendToLeaf(read: int -> Result<Step>, root: int) returns (r: Result<int>)
    ensures r == GetDescend(read, root, GET_DEPTH_CAP)
  {
    var off, cap := root, GET_DEPTH_CAP;
    while cap > 0
      invariant GetDescend(read, root, GET_DEPTH_CAP) == GetDescend(read, off, cap)
    {
      var step :- read(off);
      if step.AtLeaf? {
        return Ok(off);
      }
      off, cap := step.off, cap - 1;
    }
    return Err(DescentTooDeep);
  }

  /** The leaf loop of both, with its own limit each. */
  method WalkLeaves(read: int -> Result<ParsedLeaf>, leaf: int, limit: nat) returns (r: Result<seq<Entry>>)
    ensures r == GetChain(read, leaf, limit, [])
  {
    var out: seq<Entry>, off, cap := [], leaf, limit;
    while cap > 0
      invariant GetChain(read, leaf, limit, []) == GetChain(read, off, cap, out)
    {
      var nd :- read(off);
      if nd.right == NULL_LINK {
        return Ok(out + nd.entries);
      }
      out, off, cap := out + nd.entries, nd.right, cap - 1;
    }
    return Err(ChainTooLong);
  }

  /** `tree_entries` after the inode's stream has been fetched. */
  method TreeEntries(stream: bytes, blk: nat) returns (r: Result<seq<Entry>>)
    ensures r == GetEntries(stream, blk)
  {
    var magic :- U32(stream, 0);
    if magic != BTREE_MAGIC {
      return Err(BadMagic);
    }
    var root :- I64(stream, 16);
    var descent := DescendToLeaf(StepReader(stream, blk), root);
    var leaf :- descent;
    r := WalkLeaves(LeafReader(stream, blk), leaf, GET_CHAIN_CAP);
  }

  // ---------------------------------------------------------------------------
  // befs_dump: Befs.btree_entries
  // ---------------------------------------------------------------------------

  const DUMP_SEEN_CAP: nat := 4096

  datatype ParsedNode = ParsedNode(left: int, right: int, overflow: int, entries: seq<Entry>)

  /** `Befs.btree_node` */
  function DumpNode(nd: bytes): Result<ParsedNode>
  {
    var left :- I64(nd, 0);
    var right :- I64(nd, 8);
    var overflow :- I64(nd, 16);
    var es :- NodeEntries(nd);
    Ok(ParsedNode(left, right, overflow, es))
  }

  function NodeReader(stream: bytes, nodeSize: nat): int -> Result<ParsedNode>
  {
    off => DumpNode(Page(stream, off, nodeSize))
  }

  function DumpDescend(read: int -> Result<ParsedNode>, off: int, depth: nat): Result<int>
    decreases depth, off
  {
    if depth == 0 then Ok(off)
    else
      var nd :- read(off);
      if nd.overflow == NULL_LINK then Ok(off)
      else if nd.entries == [] then Err(IndexError)
      else DumpDescend(read, nd.entries[0].value, depth - 1)
  }

  /** `out` followed by the entries of the leaves from `off` on. */
  function DumpChain(read: int -> Result<ParsedNode>, off: int, seen: set<int>, out: seq<Entry>): Result<seq<Entry>>
    decreases DUMP_SEEN_CAP + 1 - |seen|
  {
    if off == NULL_LINK then Ok(out)
    else if off in seen || |seen| > DUMP_SEEN_CAP then Err(ChainTooLong)
    else
      var nd :- read(off);
      DumpChain(read, nd.right, seen + {off}, out + nd.entries)
  }

  function DumpEntries(stream: bytes): Result<seq<Entry>>
  {
    var magic :- U32(stream, 0);
    if magic != BTREE_MAGIC then Err(BadMagic)
    else
      var nodeSize :- U32(stream, 4);
      var depth :- U32(stream, 8);
      var root :- I64(stream, 16);
      var leaf :- DumpDescend(NodeReader(stream, nodeSize), root, depth);
      DumpChain(NodeReader(stream, nodeSize), leaf, {}, [])
  }

  method DumpToLeaf(read: int -> Result<ParsedNode>, root: int, depth: nat) returns (r: Result<int>)
    ensures r == DumpDescend(read, root, depth)
  {
    var off, todo := root, depth;
    while todo > 0
      invariant DumpDescend(read, root, depth) == DumpDescend(read, off, todo)
    {
      var nd :- read(off);
      if nd.overflow == NULL_LINK {
        return Ok(off);
      }
      if nd.entries == [] {
        return Err(IndexError);
      }
      off, todo := nd.entries[0].value, todo - 1;
    }
    return Ok(off);
  }

  method DumpLeaves(read: int -> Result<ParsedNode>, leaf: int) returns (r: Result<seq<Entry>>)
    ensures r == DumpChain(read, leaf, {}, [])
  {
    var out: seq<Entry>, off, seen: set<int> := [], leaf, {};
    while off != NULL_LINK
      invariant DumpChain(read, leaf, {}, []) == DumpChain(read, off, seen, out)
      decreases DUMP_SEEN_CAP + 1 - |seen|
    {
      if off in seen || |seen| > DUMP_SEEN_CAP {
        return Err(ChainTooLong);
      }
      var nd :- read(off);
      out, seen, off := out + nd.entries, seen + {off}, nd.right;
    }
    return Ok(out);
  }

  /** `btree_entries` */
  method BtreeEntries(stream: bytes) returns (r: Result<seq<Entry>>)
    ensures r == DumpEntries(stream)
  {
    var magic :- U32(stream, 0);
    if magic != BTREE_MAGIC {
      return Err(BadMagic);
    }
    var nodeSize :- U32(stream, 4);
    var depth :- U32(stream, 8);
    var root :- I64(stream, 16);
    var descent := DumpToLeaf(NodeReader(stream, nodeSize), root, depth);
    var leaf :- descent;
    r := DumpLeaves(NodeReader(stream, nodeSize), leaf);
  }
}
