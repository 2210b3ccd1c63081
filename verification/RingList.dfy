/** The intrusive circular doubly linked list of lab8/libs/list.h. */
module RingList {

  class ListEntry {
    var prev: ListEntry?
    var next: ListEntry?

    constructor () {
      prev, next := null, null;
    }
  }

  ghost predicate Distinct(nodes: seq<ListEntry>) {
    forall i, j | 0 <= i < j < |nodes| :: nodes[i] != nodes[j]
  }

  function After(nodes: seq<ListEntry>, i: nat): ListEntry
    requires i < |nodes|
  {
    if i + 1 == |nodes| then nodes[0] else nodes[i + 1]
  }

  function Before(nodes: seq<ListEntry>, i: nat): ListEntry
    requires i < |nodes|
  {
    if i == 0 then nodes[|nodes| - 1] else nodes[i - 1]
  }

  /** The entries, from a head on, form one ring: next and prev walk it in opposite directions. */
  ghost predicate Ring(nodes: seq<ListEntry>)
    reads nodes
  {
    && |nodes| >= 1 && Distinct(nodes)
    && (forall i | 0 <= i < |nodes| :: nodes[i].next == After(nodes, i))
    && (forall i | 0 <= i < |nodes| :: nodes[i].prev == Before(nodes, i))
  }

  /** On a ring, next and prev undo each other. */
  lemma NextAndPrevAreInverse(nodes: seq<ListEntry>, e: ListEntry)
    requires Ring(nodes) && e in nodes
    ensures e.next != null && e.prev != null && e.next.prev == e && e.prev.next == e
  {
    var i :| 0 <= i < |nodes| && nodes[i] == e;
    var a := if i + 1 == |nodes| then 0 else i + 1;
    var b := if i == 0 then |nodes| - 1 else i - 1;
    assert nodes[i].next == nodes[a] && nodes[a].prev == Before(nodes, a);
    assert nodes[i].prev == nodes[b] && nodes[b].next == After(nodes, b);
  }

  /** list_init */
  method Init(elm: ListEntry)
    modifies elm
    ensures Ring([elm])
  {
    elm.prev, elm.next := elm, elm;
  }

  /** __list_add: elm goes between two neighbours. */
  method AddBetween(elm: ListEntry, prev: ListEntry, next: ListEntry)
    requires elm != prev && elm != next
    modifies elm, prev`next, next`prev
    ensures elm.prev == prev && elm.next == next && prev.next == elm && next.prev == elm
  {
    next.prev := elm;
    prev.next := elm;
    elm.next := next;
    elm.prev := prev;
  }

  /** __list_del: two entries become neighbours. */
  method Join(prev: ListEntry, next: ListEntry)
    modifies prev`next, next`prev
    ensures prev.next == next && next.prev == prev
  {
    prev.next := next;
    next.prev := prev;
  }

  // ---------- the operations as operations on sequences ----------

  function Inserted(nodes: seq<ListEntry>, i: nat, elm: ListEntry): seq<ListEntry>
    requires i <= |nodes|
  {
    nodes[..i] + [elm] + nodes[i..]
  }

  function Removed(nodes: seq<ListEntry>, i: nat): seq<ListEntry>
    requires i < |nodes|
  {
    nodes[..i] + nodes[i + 1..]
  }

  /** The ring that deleting nodes[i] leaves: the others, or nodes[i] itself if there are none. */
  function Without(nodes: seq<ListEntry>, i: nat): seq<ListEntry>
    requires i < |nodes|
  {
    if |nodes| == 1 then nodes else Removed(nodes, i)
  }

  /** The pointers after elm was put between nodes[i] and its successor. */
  ghost predicate Spliced(nodes: seq<ListEntry>, i: nat, elm: ListEntry)
    requires i < |nodes|
    reads nodes, elm
  {
    && (forall j | 0 <= j < |nodes| :: nodes[j].next == if j == i then elm else After(nodes, j))
    && (forall j | 0 <= j < |nodes| ::
          nodes[j].prev == if j == (if i + 1 == |nodes| then 0 else i + 1) then elm else Before(nodes, j))
    && elm.prev == nodes[i] && elm.next == After(nodes, i)
  }

  lemma InsertedAt(nodes: seq<ListEntry>, i: nat, elm: ListEntry, k: nat)
    requires i < |nodes| && k <= |nodes|
    ensures |Inserted(nodes, i + 1, elm)| == |nodes| + 1
    ensures Inserted(nodes, i + 1, elm)[k] == if k <= i then nodes[k] else if k == i + 1 then elm else nodes[k - 1]
  {
  }

  lemma SplicedLink(nodes: seq<ListEntry>, i: nat, elm: ListEntry, r: seq<ListEntry>, k: nat)
    requires i < |nodes| && Spliced(nodes, i, elm) && r == Inserted(nodes, i + 1, elm) && k < |r|
    ensures r[k].next == After(r, k) && r[k].prev == Before(r, k)
  {
    InsertedAt(nodes, i, elm, k);
    InsertedAt(nodes, i, elm, if k + 1 == |r| then 0 else k + 1);
    InsertedAt(nodes, i, elm, if k == 0 then |r| - 1 else k - 1);
    hide Inserted;
    if k <= i {
      assert nodes[k].next == if k == i then elm else After(nodes, k);
    } else if k > i + 1 {
      assert nodes[k - 1].next == After(nodes, k - 1);
    }
  }

  lemma SplicedIsRing(nodes: seq<ListEntry>, i: nat, elm: ListEntry)
    requires i < |nodes| && Distinct(nodes) && elm !in nodes && Spliced(nodes, i, elm)
    ensures Ring(Inserted(nodes, i + 1, elm))
  {
    var r := Inserted(nodes, i + 1, elm);
    assert Distinct(r);
    hide Inserted, Spliced, Distinct;
    InsertedAt(nodes, i, elm, 0);
    forall k | 0 <= k < |r|
      ensures r[k].next == After(r, k) && r[k].prev == Before(r, k)
    {
      SplicedLink(nodes, i, elm, r, k);
    }
  }

  /** __list_add inside a ring. */
  method Splice(elm: ListEntry, prev: ListEntry, next: ListEntry, ghost nodes: seq<ListEntry>, ghost i: nat)
    requires Ring(nodes) && i < |nodes| && elm !in nodes && prev == nodes[i] && next == After(nodes, i)
    modifies nodes, elm
    ensures Ring(Inserted(nodes, i + 1, elm))
  {
    hide Inserted;
    ghost var n := if i + 1 == |nodes| then 0 else i + 1;
    RingPointers(nodes);
    Alone(nodes, i);
    Alone(nodes, n);
    hide Ring, Distinct;
    AddBetween(elm, prev, next);
    forall j | 0 <= j < |nodes|
      ensures nodes[j].next == if j == i then elm else After(nodes, j)
      ensures nodes[j].prev == if j == n then elm else Before(nodes, j)
    {
      assert nodes[j] != elm;
    }
    SplicedIsRing(nodes, i, elm);
  }

  lemma Alone(nodes: seq<ListEntry>, i: nat)
    requires Ring(nodes) && i < |nodes|
    ensures Distinct(nodes) && forall j | 0 <= j < |nodes| && j != i :: nodes[j] != nodes[i]
  {
  }

  /** list_add_after (and list_add): elm follows nodes[i]. */
  method AddAfter(listelm: ListEntry, elm: ListEntry, ghost nodes: seq<ListEntry>, ghost i: nat)
    requires Ring(nodes) && i < |nodes| && nodes[i] == listelm && elm !in nodes
    modifies nodes, elm
    ensures Ring(Inserted(nodes, i + 1, elm))
  {
    RingPointers(nodes);
    hide Inserted, Ring;
    Splice(elm, listelm, listelm.next, nodes, i);
  }

  /** list_add_before: elm precedes nodes[i]; before the head means at the end. */
  method AddBefore(listelm: ListEntry, elm: ListEntry, ghost nodes: seq<ListEntry>, ghost i: nat)
    requires Ring(nodes) && i < |nodes| && nodes[i] == listelm && elm !in nodes
    modifies nodes, elm
    ensures Ring(Inserted(nodes, if i == 0 then |nodes| else i, elm))
  {
    RingPointers(nodes);
    hide Inserted, Ring;
    ghost var p := if i == 0 then |nodes| - 1 else i - 1;
    assert nodes[i].prev == nodes[p] && After(nodes, p) == nodes[i];
    Splice(elm, listelm.prev, listelm, nodes, p);
  }

  /** The pointers of the others after nodes[i] was bridged. */
  ghost predicate Bridged(nodes: seq<ListEntry>, i: nat)
    requires i < |nodes|
    reads nodes
  {
    && (forall j | 0 <= j < |nodes| && j != i ::
          nodes[j].next == if After(nodes, j) == nodes[i] then After(nodes, i) else After(nodes, j))
    && (forall j | 0 <= j < |nodes| && j != i ::
          nodes[j].prev == if Before(nodes, j) == nodes[i] then Before(nodes, i) else Before(nodes, j))
  }

  lemma RemovedAt(nodes: seq<ListEntry>, i: nat, k: nat)
    requires i < |nodes| && k < |nodes| - 1
    ensures |Removed(nodes, i)| == |nodes| - 1
    ensures Removed(nodes, i)[k] == if k < i then nodes[k] else nodes[k + 1]
  {
  }

  lemma RemovedNext(nodes: seq<ListEntry>, i: nat, r: seq<ListEntry>, k: nat)
    requires i < |nodes| && |nodes| >= 2 && Distinct(nodes) && Bridged(nodes, i)
    requires r == Removed(nodes, i) && k < |r|
    ensures r[k].next == After(r, k)
  {
    hide Removed, Before;
    RemovedAt(nodes, i, 0);
    RemovedAt(nodes, i, k);
    RemovedAt(nodes, i, if k + 1 == |r| then 0 else k + 1);
  }

  lemma RemovedPrev(nodes: seq<ListEntry>, i: nat, r: seq<ListEntry>, k: nat)
    requires i < |nodes| && |nodes| >= 2 && Distinct(nodes) && Bridged(nodes, i)
    requires r == Removed(nodes, i) && k < |r|
    ensures r[k].prev == Before(r, k)
  {
    hide Removed, After;
    RemovedAt(nodes, i, 0);
    RemovedAt(nodes, i, k);
    RemovedAt(nodes, i, if k == 0 then |r| - 1 else k - 1);
  }

  lemma RemovedIsRing(nodes: seq<ListEntry>, i: nat)
    requires i < |nodes| && |nodes| >= 2 && Distinct(nodes) && Bridged(nodes, i)
    ensures Ring(Removed(nodes, i))
  {
    var r := Removed(nodes, i);
    assert Distinct(r);
    RemovedAt(nodes, i, 0);
    hide Removed, Bridged, Distinct;
    forall k | 0 <= k < |r|
      ensures r[k].next == After(r, k) && r[k].prev == Before(r, k)
    {
      RemovedNext(nodes, i, r, k);
      RemovedPrev(nodes, i, r, k);
    }
  }

  /** Where nodes[i] is a neighbour. */
  lemma Neighbours(nodes: seq<ListEntry>, i: nat, j: nat)
    requires i < |nodes| && j < |nodes| && Distinct(nodes)
    ensures After(nodes, j) == nodes[i] <==> nodes[j] == Before(nodes, i)
    ensures Before(nodes, j) == nodes[i] <==> nodes[j] == After(nodes, i)
  {
  }

  /** list_del: a member, be it the head, leaves the ring; its own pointers stay as they were. */
  method Del(listelm: ListEntry, ghost nodes: seq<ListEntry>, ghost i: nat)
    requires Ring(nodes) && i < |nodes| && nodes[i] == listelm
    modifies nodes
    ensures Ring(Without(nodes, i))
    ensures listelm.prev == old(listelm.prev) && listelm.next == old(listelm.next)
  {
    hide Removed;
    RingPointers(nodes);
    Alone(nodes, i);
    assert Before(nodes, i) in nodes && After(nodes, i) in nodes;
    assert |nodes| >= 2 ==> Before(nodes, i) != listelm && After(nodes, i) != listelm;
    hide Ring, Distinct, After, Before;
    Join(listelm.prev, listelm.next);
    if |nodes| >= 2 {
      forall j | 0 <= j < |nodes| && j != i
        ensures nodes[j].next == if After(nodes, j) == nodes[i] then After(nodes, i) else After(nodes, j)
        ensures nodes[j].prev == if Before(nodes, j) == nodes[i] then Before(nodes, i) else Before(nodes, j)
      {
        Neighbours(nodes, i, j);
      }
      RemovedIsRing(nodes, i);
    } else {
      assert nodes == [listelm];
      SelfNeighbour(listelm);
    }
  }

  lemma SelfNeighbour(elm: ListEntry)
    ensures After([elm], 0) == elm && Before([elm], 0) == elm
    ensures elm.prev == elm && elm.next == elm ==> Ring([elm])
  {
  }

  lemma NotRemaining(nodes: seq<ListEntry>, i: nat)
    requires Ring(nodes) && i < |nodes|
    ensures |nodes| >= 2 ==> nodes[i] !in Without(nodes, i)
    ensures forall e | e in Without(nodes, i) :: e in nodes
    ensures |nodes| == 1 ==> Without(nodes, i) == [nodes[i]]
  {
    hide After, Before;
    Alone(nodes, i);
  }

  /** list_del_init: the member becomes a ring of its own. */
  method DelInit(listelm: ListEntry, ghost nodes: seq<ListEntry>, ghost i: nat)
    requires Ring(nodes) && i < |nodes| && nodes[i] == listelm
    modifies nodes
    ensures Ring(Without(nodes, i)) && Ring([listelm])
  {
    hide Ring, Without;
    NotRemaining(nodes, i);
    NotEmpty(nodes);
    ghost var rest := Without(nodes, i);
    Del(listelm, nodes, i);
    assert Ring(rest);
    label Joined:
    Init(listelm);
    assert |nodes| >= 2 ==> forall e | e in rest :: unchanged@Joined(e);
  }

  /** list_empty: true of a head alone. */
  method Empty(list: ListEntry, ghost nodes: seq<ListEntry>) returns (empty: bool)
    requires Ring(nodes) && nodes[0] == list
    ensures empty <==> |nodes| == 1
  {
    assert nodes[0].next == After(nodes, 0);
    empty := list.next == list;
  }

  // ---------- traversals and runs ----------

  function Reversed(s: seq<ListEntry>): seq<ListEntry> {
    if s == [] then [] else [s[|s| - 1]] + Reversed(s[..|s| - 1])
  }

  /** Where the pointers of nodes[i] lead. */
  lemma LinksAt(nodes: seq<ListEntry>, i: nat)
    requires Ring(nodes) && i < |nodes|
    ensures nodes[i].next == nodes[if i + 1 == |nodes| then 0 else i + 1]
    ensures nodes[i].prev == nodes[if i == 0 then |nodes| - 1 else i - 1]
    ensures nodes[i] == nodes[0] <==> i == 0
  {
  }

  /** Following next from the head visits the members in order. */
  method Forward(head: ListEntry, ghost nodes: seq<ListEntry>) returns (s: seq<ListEntry>)
    requires Ring(nodes) && nodes[0] == head
    ensures s == nodes[1..]
  {
    hide Ring;
    s := [];
    NotEmpty(nodes);
    LinksAt(nodes, 0);
    var le := head.next;
    while le != head
      invariant |s| < |nodes| && s == nodes[1..|s| + 1]
      invariant le == nodes[if |s| + 1 == |nodes| then 0 else |s| + 1]
      decreases |nodes| - |s|
    {
      LinksAt(nodes, |s| + 1);
      s := s + [le];
      le := le.next;
    }
    if |s| + 1 < |nodes| {
      LinksAt(nodes, |s| + 1);
    }
  }

  lemma NotEmpty(nodes: seq<ListEntry>)
    requires Ring(nodes)
    ensures |nodes| >= 1
  {
  }

  lemma ReversedStep(nodes: seq<ListEntry>, i: nat)
    requires 1 <= i <= |nodes|
    ensures i > 1 ==> Reversed(nodes[1..i]) == [nodes[i - 1]] + Reversed(nodes[1..i - 1])
    ensures i == 1 ==> Reversed(nodes[1..i]) == []
  {
    if i > 1 {
      assert nodes[1..i][..i - 2] == nodes[1..i - 1];
    }
  }

  /** Following prev visits them in reverse. */
  method Backward(head: ListEntry, ghost nodes: seq<ListEntry>) returns (s: seq<ListEntry>)
    requires Ring(nodes) && nodes[0] == head
    ensures s == Reversed(nodes[1..])
  {
    hide Ring, Reversed;
    s := [];
    NotEmpty(nodes);
    LinksAt(nodes, 0);
    var le := head.prev;
    ghost var i := |nodes|;
    assert nodes[1..] == nodes[1..i];
    while le != head
      invariant 1 <= i <= |nodes| && le == nodes[i - 1]
      invariant Reversed(nodes[1..]) == s + Reversed(nodes[1..i])
      decreases i
    {
      ReversedStep(nodes, i);
      LinksAt(nodes, i - 1);
      s := s + [le];
      le := le.prev;
      i := i - 1;
    }
    LinksAt(nodes, i - 1);
    ReversedStep(nodes, i);
  }

  /** Adding an entry behind or before a member and deleting it again restores every pointer of the ring. */
  method AddThenDelete(listelm: ListEntry, elm: ListEntry, after: bool,
                       ghost nodes: seq<ListEntry>, ghost i: nat, ghost all: set<ListEntry>)
    requires Ring(nodes) && i < |nodes| && nodes[i] == listelm && elm !in nodes
    requires elm in all && forall e | e in nodes :: e in all
    modifies all
    ensures Ring(nodes)
    ensures forall k | 0 <= k < |nodes| :: nodes[k].next == old(nodes[k].next) && nodes[k].prev == old(nodes[k].prev)
  {
    hide Ring, Removed;
    RingPointers(nodes);
    ghost var at := if after then i + 1 else if i == 0 then |nodes| else i;
    ghost var more := Inserted(nodes, at, elm);
    RemoveInserted(nodes, at, elm);
    hide Inserted;
    if after {
      AddAfter(listelm, elm, nodes, i);
    } else {
      AddBefore(listelm, elm, nodes, i);
    }
    assert forall e | e in more :: e in all;
    Del(elm, more, at);
    assert Removed(more, at) == nodes;
    RingPointers(nodes);
  }

  lemma RemoveInserted(nodes: seq<ListEntry>, i: nat, elm: ListEntry)
    requires i <= |nodes|
    ensures |Inserted(nodes, i, elm)| == |nodes| + 1 && Inserted(nodes, i, elm)[i] == elm
    ensures Removed(Inserted(nodes, i, elm), i) == nodes
    ensures forall e | e in Inserted(nodes, i, elm) :: e in nodes || e == elm
  {
  }

  /** A ring's sequence determines its pointers. */
  lemma RingPointers(nodes: seq<ListEntry>)
    requires Ring(nodes)
    ensures forall k | 0 <= k < |nodes| :: nodes[k].next == After(nodes, k) && nodes[k].prev == Before(nodes, k)
  {
  }

  datatype Op =
    | InsertAfter(i: nat, elm: ListEntry)
    | InsertBefore(i: nat, elm: ListEntry)
    | Delete(i: nat)
    | DeleteInit(i: nat)
  {
    predicate Inserts() {
      InsertAfter? || InsertBefore?
    }
  }

  /** The members of the ring in order, and the entries that were taken out and initialised again. */
  datatype Lists = Lists(ring: seq<ListEntry>, lone: set<ListEntry>)

  predicate LegalStep(s: Lists, op: Op) {
    op.i < |s.ring| && (op.Inserts() ==> op.elm !in s.ring)
  }

  function Apply(s: Lists, op: Op): Lists
    requires LegalStep(s, op)
  {
    match op
    case InsertAfter(i, elm) => Lists(Inserted(s.ring, i + 1, elm), s.lone - {elm})
    case InsertBefore(i, elm) => Lists(Inserted(s.ring, if i == 0 then |s.ring| else i, elm), s.lone - {elm})
    case Delete(i) => s.(ring := Without(s.ring, i))
    case DeleteInit(i) =>
      Lists(Without(s.ring, i), if |s.ring| == 1 then s.lone else s.lone + {s.ring[i]})
  }

  ghost predicate Legal(s: Lists, ops: seq<Op>)
    decreases |ops|
  {
    ops != [] ==> LegalStep(s, ops[0]) && Legal(Apply(s, ops[0]), ops[1..])
  }

  ghost function ApplyAll(s: Lists, ops: seq<Op>): Lists
    requires Legal(s, ops)
    decreases |ops|
  {
    if ops == [] then s else ApplyAll(Apply(s, ops[0]), ops[1..])
  }

  /** When an operation is legal, and what it leaves. */
  lemma OneOperation(s: Lists, op: Op)
    ensures Legal(s, [op]) <==> op.i < |s.ring| && (op.InsertAfter? || op.InsertBefore? ==> op.elm !in s.ring)
    ensures Legal(s, [op]) ==>
      var r := ApplyAll(s, [op]);
      && (op.InsertAfter? ==>
            r.ring == s.ring[..op.i + 1] + [op.elm] + s.ring[op.i + 1..] && r.lone == s.lone - {op.elm})
      && (op.InsertBefore? && op.i > 0 ==>
            r.ring == s.ring[..op.i] + [op.elm] + s.ring[op.i..] && r.lone == s.lone - {op.elm})
      && (op.InsertBefore? && op.i == 0 ==> r.ring == s.ring + [op.elm] && r.lone == s.lone - {op.elm})
      && (op.Delete? && |s.ring| >= 2 ==> r.ring == s.ring[..op.i] + s.ring[op.i + 1..] && r.lone == s.lone)
      && (op.DeleteInit? && |s.ring| >= 2 ==>
            r.ring == s.ring[..op.i] + s.ring[op.i + 1..] && r.lone == s.lone + {s.ring[op.i]})
      && ((op.Delete? || op.DeleteInit?) && |s.ring| == 1 ==> r == s)
  {
    assert [op][1..] == [];
  }

  /** A run is done from its first operation to its last. */
  lemma {:induction false} InOrder(s: Lists, ops: seq<Op>, more: seq<Op>)
    requires Legal(s, ops)
    ensures Legal(s, ops + more) <==> Legal(ApplyAll(s, ops), more)
    ensures Legal(s, ops + more) ==> ApplyAll(s, ops + more) == ApplyAll(ApplyAll(s, ops), more)
    decreases |ops|
  {
    hide Apply;
    if ops == [] {
      assert ops + more == more;
    } else {
      assert (ops + more)[0] == ops[0] && (ops + more)[1..] == ops[1..] + more;
      InOrder(Apply(s, ops[0]), ops[1..], more);
    }
  }

  /** One ring of the members, beside it a ring of one for each lone entry, and no entry outside all. */
  ghost predicate Linked(s: Lists, all: set<ListEntry>)
    reads all
  {
    && (forall e | e in s.ring :: e in all) && s.lone <= all
    && Ring(s.ring)
    && forall e | e in s.lone :: e !in s.ring && Ring([e])
  }

  /** What an operation does to the members. */
  lemma ApplyMembers(s: Lists, op: Op)
    requires LegalStep(s, op) && Ring(s.ring) && forall e | e in s.lone :: e !in s.ring
    ensures forall e | e in Apply(s, op).ring :: e in s.ring || (op.Inserts() && e == op.elm)
    ensures forall e | e in Apply(s, op).lone :: e !in Apply(s, op).ring
    ensures forall e | e in Apply(s, op).lone && e !in s.lone :: op.DeleteInit? && e == s.ring[op.i]
    ensures op.Inserts() ==> op.elm !in Apply(s, op).lone
  {
    NotRemaining(s.ring, op.i);
  }

  lemma WithoutMember(nodes: seq<ListEntry>, i: nat)
    requires i < |nodes|
    ensures |nodes| >= 2 ==> Without(nodes, i) == nodes[..i] + nodes[i + 1..]
  {
  }

  /** One operation on the entries. */
  method Perform(s: Lists, op: Op, ghost all: set<ListEntry>)
    requires Linked(s, all) && LegalStep(s, op) && (op.Inserts() ==> op.elm in all)
    modifies all
    ensures Linked(Apply(s, op), all)
    ensures (op.Delete? || op.DeleteInit?) && |s.ring| >= 2 ==> Ring(s.ring[..op.i] + s.ring[op.i + 1..])
  {
    hide Ring, Inserted, Without;
    WithoutMember(s.ring, op.i);
    ApplyMembers(s, op);
    match op {
      case InsertAfter(k, elm) => AddAfter(s.ring[k], elm, s.ring, k);
      case InsertBefore(k, elm) => AddBefore(s.ring[k], elm, s.ring, k);
      case Delete(k) => Del(s.ring[k], s.ring, k);
      case DeleteInit(k) => DelInit(s.ring[k], s.ring, k);
    }
  }

  /** Any legal run of insertions and deletions keeps one ring that holds what the sequence holds, and each entry
      that list_del_init took out is a ring of its own until it is inserted again. */
  method Execute(start: Lists, ops: seq<Op>, ghost all: set<ListEntry>) returns (s: Lists)
    requires Linked(start, all) && Legal(start, ops)
    requires forall o | o in ops && o.Inserts() :: o.elm in all
    modifies all
    ensures s == ApplyAll(start, ops) && Linked(s, all)
  {
    hide Linked, Apply;
    s := start;
    var i := 0;
    assert ops[0..] == ops;
    while i < |ops|
      invariant 0 <= i <= |ops| && Linked(s, all) && Legal(s, ops[i..])
      invariant ApplyAll(s, ops[i..]) == ApplyAll(start, ops)
    {
      assert ops[i] in ops && ops[i..][0] == ops[i] && ops[i..][1..] == ops[i + 1..];
      Perform(s, ops[i], all);
      s := Apply(s, ops[i]);
      i := i + 1;
    }
  }
}
