/**
 The listener list of `userspace/lwip/port/aknet_glue.c`: a heap-allocated linked list, searched
 from the front, extended at the front, and shortened through a pointer to a pointer.
 */
module Listeners {

  datatype Pair = Pair(id: nat, pcb: nat)

  // ---------------------------------------------------------------------------
  // The specification: an association list
  // ---------------------------------------------------------------------------

  datatype Lookup = Absent | Present(pcb: nat)

  function Find(s: seq<Pair>, id: nat): Lookup
  {
    if s == [] then Absent else if s[0].id == id then Present(s[0].pcb) else Find(s[1..], id)
  }

  /** Without the first pair of this id. */
  function Remove(s: seq<Pair>, id: nat): seq<Pair>
  {
    if s == [] then [] else if s[0].id == id then s[1..] else [s[0]] + Remove(s[1..], id)
  }

  lemma {:induction false} RemoveSplit(s: seq<Pair>, id: nat, k: nat)
    requires k < |s| && s[k].id == id && (forall i :: 0 <= i < k ==> s[i].id != id)
    ensures Remove(s, id) == s[..k] + s[k + 1..] && Find(s, id) == Present(s[k].pcb)
  {
    if k > 0 {
      RemoveSplit(s[1..], id, k - 1);
      assert s[..k] == [s[0]] + s[1..][..k - 1];
      assert s[1..][k..] == s[k + 1..];
    }
  }

  lemma {:induction false} RemoveAbsent(s: seq<Pair>, id: nat)
    requires forall i :: 0 <= i < |s| ==> s[i].id != id
    ensures Remove(s, id) == s && Find(s, id) == Absent
  {
    if s != [] {
      RemoveAbsent(s[1..], id);
    }
  }

  /** Removing an id does not disturb the others. */
  lemma {:induction false} RemoveOther(s: seq<Pair>, id: nat, other: nat)
    requires id != other
    ensures Find(Remove(s, id), other) == Find(s, other)
  {
    if s != [] && s[0].id != id {
      RemoveOther(s[1..], id, other);
      assert Remove(s, id)[1..] == Remove(s[1..], id);
    }
  }

  /** A listener added and deleted again leaves the list as it was; until then it is the one
      that is found. */
  lemma AddThenDelete(s: seq<Pair>, p: Pair)
    ensures Find([p] + s, p.id) == Present(p.pcb) && Remove([p] + s, p.id) == s
  {
    assert ([p] + s)[1..] == s;
  }

  /** What an operation of the glue does to the list; `room` tells whether malloc succeeds. */
  datatype Op = Add(pair: Pair, room: bool) | Delete(id: nat)

  function Apply(s: seq<Pair>, op: Op): seq<Pair>
  {
    match op
    case Add(p, room) => if room then [p] + s else s
    case Delete(id) => Remove(s, id)
  }

  function Run(s: seq<Pair>, ops: seq<Op>): seq<Pair>
    decreases |ops|
  {
    if ops == [] then s else Run(Apply(s, ops[0]), ops[1..])
  }

  /** The pcbs of one id, latest first. */
  function Stack(s: seq<Pair>, id: nat): seq<nat>
  {
    if s == [] then [] else (if s[0].id == id then [s[0].pcb] else []) + Stack(s[1..], id)
  }

  /** Per id the list is a stack: deletion pops exactly that id's latest entry. */
  lemma {:induction false} RemovePops(s: seq<Pair>, id: nat, other: nat)
    ensures Stack(Remove(s, id), other)
         == if other == id && Stack(s, id) != [] then Stack(s, id)[1..] else Stack(s, other)
    ensures Find(s, id) == if Stack(s, id) == [] then Absent else Present(Stack(s, id)[0])
  {
    if s != [] {
      RemovePops(s[1..], id, other);
      if s[0].id != id {
        assert Remove(s, id)[1..] == Remove(s[1..], id);
      }
    }
  }

  /** The stack of one id after a run, computed from that id's operations alone. */
  function RunStack(t: seq<nat>, ops: seq<Op>, id: nat): seq<nat>
    decreases |ops|
  {
    if ops == [] then t
    else
      var t' := match ops[0]
        case Add(p, room) => if p.id == id && room then [p.pcb] + t else t
        case Delete(d) => if d == id && t != [] then t[1..] else t;
      RunStack(t', ops[1..], id)
  }

  /** Over every run, what is found for an id is the latest addition not yet deleted, whatever
      happened to other ids. */
  lemma {:induction false} RunFindsLatest(s: seq<Pair>, ops: seq<Op>, id: nat)
    ensures Stack(Run(s, ops), id) == RunStack(Stack(s, id), ops, id)
    ensures Find(Run(s, ops), id)
         == var t := RunStack(Stack(s, id), ops, id); if t == [] then Absent else Present(t[0])
    decreases |ops|
  {
    if ops == [] {
      RemovePops(s, id, id);
    } else {
      match ops[0] {
        case Add(p, room) =>
          if room {
            assert ([p] + s)[1..] == s;
            assert [] + Stack(s, id) == Stack(s, id);
          }
        case Delete(d) => RemovePops(s, d, id);
      }
      RunFindsLatest(Apply(s, ops[0]), ops[1..], id);
    }
  }

  // ---------------------------------------------------------------------------
  // The linked list
  // ---------------------------------------------------------------------------

  class Entry {
    var id: nat
    var pcb: nat
    var next: Entry?

    constructor (id: nat, pcb: nat, next: Entry?)
      ensures this.id == id && this.pcb == pcb && this.next == next
    {
      this.id, this.pcb, this.next := id, pcb, next;
    }
  }

  /** The node at an index, null past the end. */
  ghost function At(s: seq<Entry>, i: nat): Entry?
  {
    if i < |s| then s[i] else null
  }

  ghost predicate Distinct(s: seq<Entry>)
  {
    forall i, j :: 0 <= i < j < |s| ==> s[i] != s[j]
  }

  /** Without the element at an index. */
  ghost function Without<T>(s: seq<T>, k: nat): (r: seq<T>)
    requires k < |s|
    ensures |r| == |s| - 1 && forall i :: 0 <= i < |r| ==> r[i] == s[if i < k then i else i + 1]
  {
    s[..k] + s[k + 1..]
  }

  lemma StaysDistinct(s: seq<Entry>, k: nat)
    requires Distinct(s) && k < |s|
    ensures Distinct(Without(s, k)) && forall i :: 0 <= i < |s| && i != k ==> s[i] != s[k]
  {
  }

  lemma NextWithout(s: seq<Entry>, k: nat, i: nat)
    requires k < |s|
    ensures At(Without(s, k), i) == At(s, if i < k then i else i + 1)
  {
  }

  class ListenerList {
    var head: Entry?
    /** The nodes in list order. */
    ghost var spine: seq<Entry>
    /** What they hold. */
    ghost var pairs: seq<Pair>

    /** The node at an index holds its pair and points to the node after it. */
    ghost predicate Linked(i: nat)
      requires i < |spine| == |pairs|
      reads this, spine
    {
      spine[i].next == At(spine, i + 1) && pairs[i] == Pair(spine[i].id, spine[i].pcb)
    }

    /** The spine is the chain of `next` pointers from the head; no node occurs twice, so the
        list is acyclic. */
    ghost predicate Valid()
      reads this, spine
    {
      && Distinct(spine)
      && head == At(spine, 0)
      && |pairs| == |spine|
      && forall i :: 0 <= i < |spine| ==> Linked(i)
    }

    constructor ()
      ensures Valid() && pairs == [] && spine == []
    {
      head, spine, pairs := null, [], [];
    }

    /** `aknet_listen_find` */
    method FindPcb(id: nat) returns (r: Lookup)
      requires Valid()
      ensures r == Find(pairs, id)
    {
      var e := head;
      ghost var k := 0;
      while e != null
        invariant 0 <= k <= |spine|
        invariant e == At(spine, k)
        invariant forall i :: 0 <= i < k ==> pairs[i].id != id
        decreases |spine| - k
      {
        assert Linked(k);
        if e.id == id {
          RemoveSplit(pairs, id, k);
          return Present(e.pcb);
        }
        e := e.next;
        k := k + 1;
      }
      RemoveAbsent(pairs, id);
      return Absent;
    }

    /** `aknet_listen_add`; without room for the node the call is ignored. */
    method AddListener(id: nat, pcb: nat, room: bool)
      requires Valid()
      modifies this
      ensures Valid() && pairs == if room then [Pair(id, pcb)] + old(pairs) else old(pairs)
      ensures forall e :: e in spine ==> e in old(spine) || fresh(e)
    {
      if !room {
        return;
      }
      ghost var was := spine;
      var e := new Entry(id, pcb, head);
      spine, pairs := [e] + was, [Pair(id, pcb)] + pairs;
      head := e;
      assert Distinct(spine);
      forall i | 0 <= i < |spine|
        ensures Linked(i)
      {
        assert i > 0 ==> spine[i] == was[i - 1] && old(Linked(i - 1));
        assert At(spine, i + 1) == At(was, i);
      }
    }

    /** `aknet_listen_del`: `prev` is the node whose `next` field the pointer-to-pointer refers
        to, null standing for the list head. Exactly the first node of this id is unlinked. */
    method DeleteListener(id: nat)
      requires Valid()
      modifies this, spine
      ensures Valid() && pairs == Remove(old(pairs), id)
      ensures forall e :: e in spine ==> e in old(spine)
    {
      var prev: Entry? := null;
      var cur := head;
      ghost var k := 0;
      while cur != null
        invariant 0 <= k <= |spine|
        invariant cur == At(spine, k)
        invariant prev == if k == 0 then null else spine[k - 1]
        invariant forall i :: 0 <= i < k ==> pairs[i].id != id
        invariant Valid() && pairs == old(pairs) && spine == old(spine)
        decreases |spine| - k
      {
        assert Linked(k);
        if cur.id == id {
          RemoveSplit(pairs, id, k);
          Unlink(prev, cur, k);
          return;
        }
        prev := cur;
        cur := cur.next;
        k := k + 1;
      }
      RemoveAbsent(pairs, id);
    }

    /** `*pp = dead->next` */
    method Unlink(prev: Entry?, dead: Entry, ghost k: nat)
      requires Valid() && k < |spine| && dead == spine[k]
      requires prev == if k == 0 then null else spine[k - 1]
      modifies this, spine
      ensures Valid() && spine == old(Without(spine, k))
      ensures pairs == old(Without(pairs, k))
    {
      hide Without, Distinct;
      ghost var was := spine;
      StaysDistinct(was, k);
      if k > 0 {
        StaysDistinct(was, k - 1);
      }
      NextWithout(was, k, 0);
      assert Linked(k);
      if prev == null {
        head := dead.next;
      } else {
        prev.next := dead.next;
      }
      spine, pairs := Without(was, k), Without(pairs, k);
      forall i | 0 <= i < |spine|
        ensures Linked(i)
      {
        NextWithout(was, k, i + 1);
        assert old(Linked(if i < k then i else i + 1));
      }
    }
  }
}
