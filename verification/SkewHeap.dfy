/** The intrusive skew heap of lab8/libs/skew_heap.h: entries linked by parent, left and right pointers. */
module SkewHeap {
  import opened CInts

  class Entry<T> {
    const item: T
    var parent: Entry?<T>
    var left: Entry?<T>
    var right: Entry?<T>

    /** skew_heap_init on a new entry. */
    constructor (item: T)
      ensures this.item == item && parent == null && left == null && right == null
    {
      this.item := item;
      parent, left, right := null, null, null;
    }
  }

  // ---------- the shape of a heap, as a value ----------

  datatype Tree<T> = Leaf | Node(entry: Entry<T>, left: Tree<T>, right: Tree<T>)

  function Entries<T>(t: Tree<T>): set<Entry<T>> {
    if t.Leaf? then {} else {t.entry} + Entries(t.left) + Entries(t.right)
  }

  function Size<T>(t: Tree<T>): nat {
    if t.Leaf? then 0 else 1 + Size(t.left) + Size(t.right)
  }

  /** No entry occurs twice. */
  ghost predicate Distinct<T>(t: Tree<T>) {
    t.Node? ==>
      && t.entry !in Entries(t.left) && t.entry !in Entries(t.right)
      && Entries(t.left) !! Entries(t.right)
      && Distinct(t.left) && Distinct(t.right)
  }

  /** comp returns -1 exactly for "less", and "not greater" is a total preorder. */
  ghost predicate Comparison<T(!new)>(comp: (T, T) -> int) {
    && (forall x, y :: NotGreater(comp, x, y) || NotGreater(comp, y, x))
    && (forall x, y, z :: NotGreater(comp, x, y) && NotGreater(comp, y, z) ==> NotGreater(comp, x, z))
  }

  ghost predicate NotGreater<T>(comp: (T, T) -> int, x: T, y: T) {
    comp(y, x) != -1
  }

  ghost predicate AtMostRoot<T>(comp: (T, T) -> int, x: T, t: Tree<T>) {
    t.Node? ==> NotGreater(comp, x, t.entry.item)
  }

  /** Heap order. */
  ghost predicate Ordered<T>(comp: (T, T) -> int, t: Tree<T>) {
    t.Node? ==>
      && AtMostRoot(comp, t.entry.item, t.left) && AtMostRoot(comp, t.entry.item, t.right)
      && Ordered(comp, t.left) && Ordered(comp, t.right)
  }

  // ---------- the operations on shapes ----------

  function MergeTree<T>(a: Tree<T>, b: Tree<T>, comp: (T, T) -> int): Tree<T>
    decreases a, b
  {
    if a.Leaf? then b
    else if b.Leaf? then a
    else if comp(a.entry.item, b.entry.item) == -1 then
      Node(a.entry, MergeTree(a.right, b, comp), a.left)
    else
      Node(b.entry, MergeTree(a, b.right, comp), b.left)
  }

  /** How many calls of skew_heap_merge a merge takes. */
  function MergeCalls<T>(a: Tree<T>, b: Tree<T>, comp: (T, T) -> int): nat
    decreases a, b
  {
    if a.Leaf? || b.Leaf? then 1
    else if comp(a.entry.item, b.entry.item) == -1 then 1 + MergeCalls(a.right, b, comp)
    else 1 + MergeCalls(a, b.right, comp)
  }

  function InsertTree<T>(t: Tree<T>, e: Entry<T>, comp: (T, T) -> int): Tree<T> {
    MergeTree(t, Node(e, Leaf, Leaf), comp)
  }

  /** The subtree below entry e. */
  function Sub<T>(t: Tree<T>, e: Entry<T>): (s: Tree<T>)
    requires e in Entries(t)
    ensures s.Node? && s.entry == e && Entries(s) <= Entries(t)
  {
    if t.entry == e then t
    else if e in Entries(t.left) then Sub(t.left, e)
    else Sub(t.right, e)
  }

  function RemoveTree<T>(t: Tree<T>, e: Entry<T>, comp: (T, T) -> int): Tree<T>
    requires e in Entries(t)
  {
    if t.entry == e then MergeTree(t.left, t.right, comp)
    else if e in Entries(t.left) then Node(t.entry, RemoveTree(t.left, e, comp), t.right)
    else Node(t.entry, t.left, RemoveTree(t.right, e, comp))
  }

  // ---------- what the operations keep ----------

  lemma {:induction false} MergeEntries<T>(a: Tree<T>, b: Tree<T>, comp: (T, T) -> int)
    ensures Entries(MergeTree(a, b, comp)) == Entries(a) + Entries(b)
    ensures Size(MergeTree(a, b, comp)) == Size(a) + Size(b)
    decreases a, b
  {
    if a.Node? && b.Node? {
      if comp(a.entry.item, b.entry.item) == -1 {
        MergeEntries(a.right, b, comp);
      } else {
        MergeEntries(a, b.right, comp);
      }
    }
  }

  lemma {:induction false} MergeDistinct<T>(a: Tree<T>, b: Tree<T>, comp: (T, T) -> int)
    requires Distinct(a) && Distinct(b) && Entries(a) !! Entries(b)
    ensures Distinct(MergeTree(a, b, comp))
    decreases a, b
  {
    if a.Node? && b.Node? {
      if comp(a.entry.item, b.entry.item) == -1 {
        MergeDistinct(a.right, b, comp);
        MergeEntries(a.right, b, comp);
      } else {
        MergeDistinct(a, b.right, comp);
        MergeEntries(a, b.right, comp);
      }
    }
  }

  lemma {:induction false} MergeOrdered<T(!new)>(a: Tree<T>, b: Tree<T>, comp: (T, T) -> int)
    requires Comparison(comp) && Ordered(comp, a) && Ordered(comp, b)
    ensures Ordered(comp, MergeTree(a, b, comp))
    decreases a, b
  {
    if a.Node? && b.Node? {
      assert NotGreater(comp, a.entry.item, b.entry.item) || NotGreater(comp, b.entry.item, a.entry.item);
      if comp(a.entry.item, b.entry.item) == -1 {
        MergeOrdered(a.right, b, comp);
      } else {
        MergeOrdered(a, b.right, comp);
      }
    }
  }

  // ---------- which calls a merge makes, and where its parts go ----------

  /** The number of entries on the way that only goes to the right. */
  function RightSpine<T>(t: Tree<T>): nat {
    if t.Leaf? then 0 else 1 + RightSpine(t.right)
  }

  function RightDown<T>(t: Tree<T>, k: nat): Tree<T> {
    if k == 0 || t.Leaf? then t else RightDown(t.right, k - 1)
  }

  function LeftDown<T>(t: Tree<T>, k: nat): Tree<T> {
    if k == 0 || t.Leaf? then t else LeftDown(t.left, k - 1)
  }

  /** A merge is one call for each entry that it takes from the two right spines, and one more, which finds
      one of them used up. The entries taken are the way to the left in the result, and at its end hangs
      what is left of the other tree. */
  lemma {:induction false} MergeCallsExact<T>(a: Tree<T>, b: Tree<T>, comp: (T, T) -> int) returns (i: nat, j: nat)
    ensures i <= RightSpine(a) && j <= RightSpine(b)
    ensures MergeCalls(a, b, comp) == 1 + i + j
    ensures i == RightSpine(a) || j == RightSpine(b)
    ensures i == RightSpine(a) ==> LeftDown(MergeTree(a, b, comp), i + j) == RightDown(b, j)
    ensures j == RightSpine(b) ==> LeftDown(MergeTree(a, b, comp), i + j) == RightDown(a, i)
    decreases a, b
  {
    if a.Leaf? || b.Leaf? {
      i, j := 0, 0;
    } else if comp(a.entry.item, b.entry.item) == -1 {
      i, j := MergeCallsExact(a.right, b, comp);
      i := i + 1;
    } else {
      i, j := MergeCallsExact(a, b.right, comp);
      j := j + 1;
    }
  }

  /** The lesser root is the root of the result, the one of b if neither is less; what was to its left
      moves to the right. */
  lemma MergeRootExact<T(!new)>(a: Tree<T>, b: Tree<T>, comp: (T, T) -> int)
    requires a.Node? && b.Node?
    ensures var m := MergeTree(a, b, comp);
            && m.Node?
            && (NotGreater(comp, b.entry.item, a.entry.item) ==> m.entry == b.entry && m.right == b.left)
            && (!NotGreater(comp, b.entry.item, a.entry.item) ==> m.entry == a.entry && m.right == a.left)
  {
  }

  /** Removal takes out the entry and nothing else. */
  lemma {:induction false} RemoveEntries<T>(t: Tree<T>, e: Entry<T>, comp: (T, T) -> int)
    requires e in Entries(t) && Distinct(t)
    ensures Entries(RemoveTree(t, e, comp)) == Entries(t) - {e}
    ensures Size(RemoveTree(t, e, comp)) == Size(t) - 1
    ensures Distinct(RemoveTree(t, e, comp))
  {
    if t.entry == e {
      MergeEntries(t.left, t.right, comp);
      MergeDistinct(t.left, t.right, comp);
    } else if e in Entries(t.left) {
      RemoveEntries(t.left, e, comp);
    } else {
      RemoveEntries(t.right, e, comp);
    }
  }

  lemma {:induction false} RemoveOrdered<T(!new)>(t: Tree<T>, e: Entry<T>, comp: (T, T) -> int)
    requires Comparison(comp) && Ordered(comp, t) && e in Entries(t)
    ensures Ordered(comp, RemoveTree(t, e, comp))
    ensures forall x | AtMostRoot(comp, x, t) :: AtMostRoot(comp, x, RemoveTree(t, e, comp))
  {
    if t.entry == e {
      MergeOrdered(t.left, t.right, comp);
    } else if e in Entries(t.left) {
      RemoveOrdered(t.left, e, comp);
    } else {
      RemoveOrdered(t.right, e, comp);
    }
  }

  /** The root of an ordered heap is a smallest entry. */
  lemma {:induction false} RootIsLeast<T(!new)>(t: Tree<T>, comp: (T, T) -> int, e: Entry<T>)
    requires Comparison(comp) && Ordered(comp, t) && e in Entries(t)
    ensures NotGreater(comp, t.entry.item, e.item)
  {
    assert NotGreater(comp, t.entry.item, t.entry.item);
    if e in Entries(t.left) {
      RootIsLeast(t.left, comp, e);
    } else if e in Entries(t.right) {
      RootIsLeast(t.right, comp, e);
    }
  }

  // ---------- amortised cost ----------

  /** The potential: the number of entries whose right subtree is larger than the left. */
  function Heavy<T>(t: Tree<T>): nat {
    if t.Leaf? then 0 else
      Heavy(t.left) + Heavy(t.right) + if Size(t.right) > Size(t.left) then 1 else 0
  }

  /** The entries of the right spine whose right subtree is not larger than the left. */
  function Light<T>(t: Tree<T>): nat {
    if t.Leaf? then 0 else
      Light(t.right) + if Size(t.right) > Size(t.left) then 0 else 1
  }

  /** The logarithm to base 2, rounded down. */
  function Log2(n: nat): nat {
    if n < 2 then 0 else 1 + Log2(n / 2)
  }

  lemma {:induction false} Log2Exact(n: nat)
    requires n >= 1
    ensures Pow2(Log2(n)) <= n < 2 * Pow2(Log2(n))
  {
    if n >= 2 {
      Log2Exact(n / 2);
    }
  }

  lemma {:induction false} Log2Monotone(m: nat, n: nat)
    requires m <= n
    ensures Log2(m) <= Log2(n)
  {
    if m >= 2 {
      Log2Monotone(m / 2, n / 2);
    }
  }

  lemma {:induction false} LightIsFew<T>(t: Tree<T>)
    ensures Light(t) <= Log2(Size(t) + 1)
  {
    if t.Node? {
      LightIsFew(t.right);
      if Size(t.right) > Size(t.left) {
        Log2Monotone(Size(t.right) + 1, Size(t) + 1);
      } else {
        Log2Monotone(Size(t.right) + 1, (Size(t) + 1) / 2);
      }
    }
  }

  lemma {:induction false} MergeSpine<T>(a: Tree<T>, b: Tree<T>, comp: (T, T) -> int)
    ensures MergeCalls(a, b, comp) + Heavy(MergeTree(a, b, comp)) <= Heavy(a) + Heavy(b) + 1 + 2 * (Light(a) + Light(b))
    decreases a, b
  {
    if a.Node? && b.Node? {
      if comp(a.entry.item, b.entry.item) == -1 {
        MergeSpine(a.right, b, comp);
        MergeEntries(a.right, b, comp);
      } else {
        MergeSpine(a, b.right, comp);
        MergeEntries(a, b.right, comp);
      }
    }
  }

  /** The amortised cost of one merge is logarithmic, whatever the shape of the trees. */
  lemma MergeAmortised<T>(a: Tree<T>, b: Tree<T>, comp: (T, T) -> int)
    ensures MergeCalls(a, b, comp) + Heavy(MergeTree(a, b, comp))
         <= Heavy(a) + Heavy(b) + 1 + 2 * (Log2(Size(a) + 1) + Log2(Size(b) + 1))
  {
    MergeSpine(a, b, comp);
    LightIsFew(a);
    LightIsFew(b);
  }

  /** The ancestors of e that can become heavy when e goes: e is on the left and both sides are equal. */
  function Balanced<T>(t: Tree<T>, e: Entry<T>): nat
    requires e in Entries(t)
  {
    if t.entry == e then 0
    else if e in Entries(t.left) then
      Balanced(t.left, e) + if Size(t.left) == Size(t.right) then 1 else 0
    else Balanced(t.right, e)
  }

  lemma {:induction false} BalancedIsFew<T>(t: Tree<T>, e: Entry<T>)
    requires e in Entries(t)
    ensures Balanced(t, e) <= Log2(Size(t) + 1)
  {
    if t.entry == e {
    } else if e in Entries(t.left) {
      BalancedIsFew(t.left, e);
      if Size(t.left) == Size(t.right) {
        assert (Size(t) + 1) / 2 == Size(t.left) + 1;
      } else {
        Log2Monotone(Size(t.left) + 1, Size(t) + 1);
      }
    } else {
      BalancedIsFew(t.right, e);
      Log2Monotone(Size(t.right) + 1, Size(t) + 1);
    }
  }

  lemma {:induction false} SubSize<T>(t: Tree<T>, e: Entry<T>)
    requires e in Entries(t)
    ensures Size(Sub(t, e)) <= Size(t)
  {
    if t.entry == e {
    } else if e in Entries(t.left) {
      SubSize(t.left, e);
    } else {
      SubSize(t.right, e);
    }
  }

  /** Replacing the subtree below e by the merge of its children costs the merge, plus the balanced ancestors. */
  lemma {:induction false} RemoveSpine<T>(t: Tree<T>, e: Entry<T>, comp: (T, T) -> int)
    requires e in Entries(t) && Distinct(t)
    ensures var s := Sub(t, e);
            MergeCalls(s.left, s.right, comp) + Heavy(RemoveTree(t, e, comp))
              <= Heavy(t) + 1 + 2 * (Light(s.left) + Light(s.right)) + Balanced(t, e)
  {
    if t.entry == e {
      MergeSpine(t.left, t.right, comp);
    } else if e in Entries(t.left) {
      RemoveSpine(t.left, e, comp);
      RemoveEntries(t.left, e, comp);
    } else {
      RemoveSpine(t.right, e, comp);
      RemoveEntries(t.right, e, comp);
    }
  }

  /** Removing any entry has logarithmic amortised cost, although it can make ancestors heavy. */
  lemma RemoveAmortised<T>(t: Tree<T>, e: Entry<T>, comp: (T, T) -> int)
    requires e in Entries(t) && Distinct(t)
    ensures var s := Sub(t, e);
            MergeCalls(s.left, s.right, comp) + Heavy(RemoveTree(t, e, comp)) <= Heavy(t) + 1 + 5 * Log2(Size(t) + 1)
  {
    hide Log2, Heavy, Light, Balanced, MergeCalls, RemoveTree, Distinct;
    var s := Sub(t, e);
    assert Size(s) == 1 + Size(s.left) + Size(s.right);
    hide Size, Sub;
    RemoveSpine(t, e, comp);
    BalancedIsFew(t, e);
    LightIsFew(s.left);
    LightIsFew(s.right);
    SubSize(t, e);
    Log2Monotone(Size(s.left) + 1, Size(t) + 1);
    Log2Monotone(Size(s.right) + 1, Size(t) + 1);
  }

  // ---------- whole runs ----------

  datatype Op<T> = Insert(entry: Entry<T>) | Remove(entry: Entry<T>)

  /** The entries in the heap after a run: those inserted and not removed since. */
  function Members<T>(ops: seq<Op<T>>): set<Entry<T>> {
    if ops == [] then {} else
      var before := Members(ops[..|ops| - 1]);
      match ops[|ops| - 1]
      case Insert(e) => before + {e}
      case Remove(e) => before - {e}
  }

  /** Entries are inserted when they are outside the heap and removed when they are inside. */
  ghost predicate Legal<T>(ops: seq<Op<T>>) {
    ops != [] ==>
      var before := ops[..|ops| - 1];
      && Legal(before)
      && match ops[|ops| - 1]
         case Insert(e) => e !in Members(before)
         case Remove(e) => e in Members(before)
  }

  /** The most entries that the heap ever holds during a run. */
  function Largest<T>(ops: seq<Op<T>>): nat {
    if ops == [] then 0 else
      var before := Largest(ops[..|ops| - 1]);
      if before < |Members(ops)| then |Members(ops)| else before
  }

  /** It is at most the number of operations, but may be far less. */
  lemma {:induction false} LargestIsFew<T>(ops: seq<Op<T>>)
    ensures |Members(ops)| <= Largest(ops) <= |ops|
  {
    if ops != [] {
      LargestIsFew(ops[..|ops| - 1]);
    }
  }

  /** It is the number of members at some time, and at no time are there more. */
  lemma {:induction false} LargestExact<T>(ops: seq<Op<T>>) returns (at: nat)
    ensures at <= |ops| && Largest(ops) == |Members(ops[..at])|
    ensures forall k | 0 <= k <= |ops| :: |Members(ops[..k])| <= Largest(ops)
  {
    hide Members;
    NoMembers<T>();
    assert ops[..|ops|] == ops;
    if ops == [] {
      at := 0;
    } else {
      var before := ops[..|ops| - 1];
      assert forall k | 0 <= k < |ops| :: before[..k] == ops[..k];
      at := LargestExact(before);
      if |Members(ops)| > Largest(before) {
        at := |ops|;
      }
    }
  }

  lemma NoMembers<T>()
    ensures Members<T>([]) == {}
  {
  }

  /** An entry is a member if and only if it was inserted at some time and not removed since. */
  lemma {:induction false} MembersExact<T>(ops: seq<Op<T>>, e: Entry<T>)
    ensures e in Members(ops)
       <==> exists k :: 0 <= k < |ops| && ops[k] == Insert(e) && forall j | k < j < |ops| :: ops[j] != Remove(e)
  {
    if ops != [] {
      var before := ops[..|ops| - 1];
      var last := ops[|ops| - 1];
      MembersExact(before, e);
      if e in Members(before) && last != Remove(e) {
        var k :| 0 <= k < |before| && before[k] == Insert(e) && forall j | k < j < |before| :: before[j] != Remove(e);
        assert ops[k] == Insert(e);
      }
      if last == Insert(e) {
        assert ops[|ops| - 1] == Insert(e);
      }
      if k :| 0 <= k < |ops| && ops[k] == Insert(e) && forall j | k < j < |ops| :: ops[j] != Remove(e) {
        if k < |before| {
          assert before[k] == Insert(e);
          assert forall j | k < j < |before| :: before[j] == ops[j];
        }
      }
    }
  }

  /** A run is legal if and only if each operation is, at its time. */
  lemma {:induction false} LegalExact<T>(ops: seq<Op<T>>)
    ensures Legal(ops) <==> forall k | 0 <= k < |ops| :: ops[k].Remove? <==> ops[k].entry in Members(ops[..k])
  {
    hide Members;
    if ops != [] {
      var before := ops[..|ops| - 1];
      LegalExact(before);
      assert forall k | 0 <= k < |before| :: before[k] == ops[k] && before[..k] == ops[..k];
    }
  }

  /** The order of the integers is a comparison. */
  lemma IntegersCompare()
    ensures Comparison((x: int, y: int) => if x < y then -1 else if x == y then 0 else 1)
  {
    var comp := (x: int, y: int) => if x < y then -1 else if x == y then 0 else 1;
    assert forall x, y :: NotGreater(comp, x, y) <==> x <= y;
  }

  ghost function RunTree<T(!new)>(ops: seq<Op<T>>, comp: (T, T) -> int): Tree<T>
  {
    if ops == [] then Leaf else
      var t := RunTree(ops[..|ops| - 1], comp);
      match ops[|ops| - 1]
      case Insert(e) => InsertTree(t, e, comp)
      case Remove(e) => if e in Entries(t) then RemoveTree(t, e, comp) else t
  }

  /** The calls of skew_heap_merge in a run. */
  ghost function RunCalls<T(!new)>(ops: seq<Op<T>>, comp: (T, T) -> int): nat {
    if ops == [] then 0 else
      var t := RunTree(ops[..|ops| - 1], comp);
      RunCalls(ops[..|ops| - 1], comp) +
      match ops[|ops| - 1]
      case Insert(e) => MergeCalls(t, Node(e, Leaf, Leaf), comp)
      case Remove(e) =>
        if e in Entries(t) then MergeCalls(Sub(t, e).left, Sub(t, e).right, comp) else 0
  }

  lemma {:induction false} RunShape<T(!new)>(ops: seq<Op<T>>, comp: (T, T) -> int)
    requires Legal(ops) && Comparison(comp)
    ensures var t := RunTree(ops, comp); Entries(t) == Members(ops) && Distinct(t) && Ordered(comp, t)
  {
    hide Comparison, Ordered;
    if ops == [] {
      assert Ordered(comp, Leaf) by { EmptyOrdered(comp); }
    } else {
      var before := ops[..|ops| - 1];
      RunShape(before, comp);
      var t := RunTree(before, comp);
      match ops[|ops| - 1] {
        case Insert(e) =>
          var single := Node(e, Leaf, Leaf);
          SingleOrdered(e, comp);
          MergeEntries(t, single, comp);
          MergeDistinct(t, single, comp);
          MergeOrdered(t, single, comp);
        case Remove(e) =>
          RemoveEntries(t, e, comp);
          RemoveOrdered(t, e, comp);
      }
    }
  }

  lemma EmptyOrdered<T>(comp: (T, T) -> int)
    ensures Ordered(comp, Leaf)
  {
  }

  lemma SingleOrdered<T>(e: Entry<T>, comp: (T, T) -> int)
    ensures Ordered(comp, Node(e, Leaf, Leaf))
  {
  }

  /** A tree without repetitions has as many nodes as entries. */
  lemma {:induction false} SizeIsCount<T>(t: Tree<T>)
    requires Distinct(t)
    ensures Size(t) == |Entries(t)|
  {
    if t.Node? {
      SizeIsCount(t.left);
      SizeIsCount(t.right);
      assert |{t.entry} + Entries(t.left)| == 1 + |Entries(t.left)|;
    }
  }

  /** Every legal run keeps heap order and holds exactly the entries inserted and not removed. */
  lemma RunKeepsHeap<T(!new)>(ops: seq<Op<T>>, comp: (T, T) -> int)
    requires Legal(ops) && Comparison(comp)
    ensures var t := RunTree(ops, comp);
            && Entries(t) == Members(ops) && Distinct(t) && Ordered(comp, t) && Size(t) == |Members(ops)| <= |ops|
            && forall e | e in Members(ops) :: NotGreater(comp, t.entry.item, e.item)
  {
    hide Comparison, Ordered, Distinct, Legal, RunTree, Members, NotGreater;
    var t := RunTree(ops, comp);
    RunShape(ops, comp);
    SizeIsCount(t);
    LargestIsFew(ops);
    forall e | e in Entries(t)
      ensures NotGreater(comp, t.entry.item, e.item)
    {
      RootIsLeast(t, comp, e);
    }
  }

  /** A run of m operations from an empty heap that never holds more than n entries takes at most
      m * (5 log2(n + 1) + 3) merge calls. */
  lemma {:induction false} RunIsLogarithmic<T(!new)>(ops: seq<Op<T>>, comp: (T, T) -> int)
    requires Legal(ops) && Comparison(comp)
    ensures RunCalls(ops, comp) + Heavy(RunTree(ops, comp)) <= |ops| * (5 * Log2(Largest(ops) + 1) + 3)
  {
    hide Log2, Heavy, RunCalls, RunTree, Comparison, Members;
    if ops == [] {
      EmptyRun(comp);
    } else {
      var before := ops[..|ops| - 1];
      RunIsLogarithmic(before, comp);
      StepAmortised(ops, comp);
      Log2Monotone(Largest(before) + 1, Largest(ops) + 1);
      NextBound(|before|, 5 * Log2(Largest(before) + 1) + 3, 5 * Log2(Largest(ops) + 1) + 3);
    }
  }

  lemma EmptyRun<T(!new)>(comp: (T, T) -> int)
    ensures RunCalls<T>([], comp) == 0 && Heavy(RunTree<T>([], comp)) == 0
  {
  }

  /** What the last operation of a run adds. */
  lemma StepAmortised<T(!new)>(ops: seq<Op<T>>, comp: (T, T) -> int)
    requires Legal(ops) && Comparison(comp) && ops != []
    ensures var before := ops[..|ops| - 1];
            RunCalls(ops, comp) + Heavy(RunTree(ops, comp))
            <= RunCalls(before, comp) + Heavy(RunTree(before, comp)) + 5 * Log2(Largest(before) + 1) + 3
  {
    hide Log2, Heavy, Largest, Size, Sub, Entries, MergeCalls, MergeTree, RemoveTree, Comparison, Distinct, Ordered;
    var before := ops[..|ops| - 1];
    var t := RunTree(before, comp);
    RunKeepsHeap(before, comp);
    LargestIsFew(before);
    Log2Monotone(Size(t) + 1, Largest(before) + 1);
    match ops[|ops| - 1] {
      case Insert(e) => InsertAmortised(t, e, comp);
      case Remove(e) => RemoveAmortised(t, e, comp);
    }
  }

  lemma InsertAmortised<T>(t: Tree<T>, e: Entry<T>, comp: (T, T) -> int)
    ensures MergeCalls(t, Node(e, Leaf, Leaf), comp) + Heavy(InsertTree(t, e, comp))
         <= Heavy(t) + 3 + 2 * Log2(Size(t) + 1)
  {
    var single := Node(e, Leaf, Leaf);
    assert Size(single) == 1 && Heavy(single) == 0 && Log2(2) == 1;
    hide Log2, Heavy, Size, MergeCalls, MergeTree;
    MergeAmortised(t, single, comp);
  }

  lemma NextBound(m: nat, k: nat, k': nat)
    requires k <= k'
    ensures m * k + k <= (m + 1) * k'
  {
    assert m * k <= m * k' by { MulMonotone(m, k, k'); }
  }

  lemma MulMonotone(m: nat, k: nat, k': nat)
    requires k <= k'
    ensures m * k <= m * k'
  {
  }
}
