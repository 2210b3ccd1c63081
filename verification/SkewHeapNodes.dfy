/** skew_heap_merge, skew_heap_insert and skew_heap_remove on the linked entries themselves. */
module SkewHeapNodes {
  import opened SkewHeap

  /** The pointers of some entries, as a value. */
  datatype Pointers<T> = Pointers(
    left: map<Entry<T>, Entry?<T>>, right: map<Entry<T>, Entry?<T>>, parent: map<Entry<T>, Entry?<T>>)

  ghost predicate Knows<T>(k: Pointers<T>, e: Entry<T>) {
    e in k.left && e in k.right && e in k.parent
  }

  /** By the pointers k, the entries reachable from n form exactly the shape t, and each child points
      back to its parent. Nothing is said about the parent of n itself. */
  ghost predicate ShapeIn<T>(k: Pointers<T>, n: Entry?<T>, t: Tree<T>) {
    match t
    case Leaf => n == null
    case Node(e, l, r) =>
      && n == e && Knows(k, e)
      && ShapeIn(k, k.left[e], l) && ShapeIn(k, k.right[e], r)
      && (l.Node? ==> k.parent[l.entry] == e)
      && (r.Node? ==> k.parent[r.entry] == e)
  }

  /** k records the pointers that the entries es have now. */
  ghost predicate Matches<T>(k: Pointers<T>, es: set<Entry<T>>)
    reads es
  {
    forall e | e in es ::
      Knows(k, e) && k.left[e] == e.left && k.right[e] == e.right && k.parent[e] == e.parent
  }

  ghost function Snapshot<T>(es: set<Entry<T>>): Pointers<T>
    reads es
  {
    Pointers(map e | e in es :: e.left, map e | e in es :: e.right, map e | e in es :: e.parent)
  }

  /** The entries reachable from n form the shape t. */
  ghost predicate Shape<T>(n: Entry?<T>, t: Tree<T>)
    reads Entries(t)
  {
    ShapeIn(Snapshot(Entries(t)), n, t)
  }

  /** A whole heap: its root has no parent. */
  ghost predicate Heap<T>(n: Entry?<T>, t: Tree<T>)
    reads Entries(t)
  {
    Shape(n, t) && Distinct(t) && (t.Node? ==> t.entry.parent == null)
  }

  ghost predicate AgreeOn<T>(k: Pointers<T>, k': Pointers<T>, e: Entry<T>) {
    Knows(k, e) && Knows(k', e) && k'.left[e] == k.left[e] && k'.right[e] == k.right[e] && k'.parent[e] == k.parent[e]
  }

  /** A shape depends on nothing but the pointers of its entries. */
  lemma {:induction false} ShapeFrame<T>(k: Pointers<T>, k': Pointers<T>, n: Entry?<T>, t: Tree<T>)
    requires ShapeIn(k, n, t)
    requires forall e | e in Entries(t) :: AgreeOn(k, k', e)
    ensures ShapeIn(k', n, t)
  {
    if t.Node? {
      assert AgreeOn(k, k', t.entry);
      ShapeFrame(k, k', k.left[t.entry], t.left);
      ShapeFrame(k, k', k.right[t.entry], t.right);
      assert t.left.Node? ==> AgreeOn(k, k', t.left.entry);
      assert t.right.Node? ==> AgreeOn(k, k', t.right.entry);
    }
  }

  /** It does not depend on the parent of its root. */
  lemma ShapeReparent<T>(k: Pointers<T>, k': Pointers<T>, n: Entry?<T>, t: Tree<T>)
    requires ShapeIn(k, n, t) && Distinct(t)
    requires forall e | e in Entries(t) && e != n :: AgreeOn(k, k', e)
    requires n != null ==> Knows(k', n) && k'.left[n] == k.left[n] && k'.right[n] == k.right[n]
    ensures ShapeIn(k', n, t)
  {
    if t.Node? {
      ShapeFrame(k, k', k.left[n], t.left);
      ShapeFrame(k, k', k.right[n], t.right);
      assert t.left.Node? ==> AgreeOn(k, k', t.left.entry);
      assert t.right.Node? ==> AgreeOn(k, k', t.right.entry);
    }
  }

  lemma RootEntry<T>(k: Pointers<T>, n: Entry?<T>, t: Tree<T>)
    requires ShapeIn(k, n, t)
    ensures n == null <==> t.Leaf?
    ensures n != null ==> t.entry == n && n in Entries(t)
  {
  }

  lemma JoinShapes<T>(k: Pointers<T>, e: Entry<T>, l: Entry?<T>, r: Entry?<T>, tl: Tree<T>, tr: Tree<T>)
    requires Knows(k, e) && k.left[e] == l && k.right[e] == r && ShapeIn(k, l, tl) && ShapeIn(k, r, tr)
    requires l != null ==> Knows(k, l) && k.parent[l] == e
    requires r != null ==> Knows(k, r) && k.parent[r] == e
    ensures ShapeIn(k, e, Node(e, tl, tr))
  {
  }

  /** A record of exactly the entries of a shape. */
  lemma Record<T>(n: Entry?<T>, t: Tree<T>) returns (k: Pointers<T>)
    requires Shape(n, t)
    ensures Matches(k, Entries(t)) && ShapeIn(k, n, t)
    ensures k.left.Keys == k.right.Keys == k.parent.Keys == Entries(t)
  {
    k := Snapshot(Entries(t));
  }

  lemma NewRecord<T>(es: set<Entry<T>>) returns (k: Pointers<T>)
    ensures Matches(k, es)
  {
    k := Snapshot(es);
  }

  lemma FromRecord<T>(k: Pointers<T>, n: Entry?<T>, t: Tree<T>)
    requires Matches(k, Entries(t)) && ShapeIn(k, n, t)
    ensures Shape(n, t)
  {
    hide ShapeIn;
    ShapeFrame(k, Snapshot(Entries(t)), n, t);
  }

  /** The tail of either branch of skew_heap_merge, in terms of pointers: e adopts l and r. */
  method Adopt<T>(e: Entry<T>, l: Entry?<T>, r: Entry?<T>,
                  ghost kl: Pointers<T>, ghost kr: Pointers<T>, ghost ls: set<Entry<T>>, ghost rs: set<Entry<T>>)
    returns (ghost k: Pointers<T>)
    requires Matches(kl, ls) && Matches(kr, rs) && e !in ls && e !in rs && ls !! rs
    requires l != null ==> l in ls
    requires r != null ==> r in rs && r.parent == e
    modifies e`left, e`right, ls`parent
    ensures Matches(k, {e} + ls + rs)
    ensures forall x | x in rs :: AgreeOn(kr, k, x)
    ensures forall x | x in ls && x != l :: AgreeOn(kl, k, x)
    ensures Knows(k, e) && k.left[e] == l && k.right[e] == r
    ensures l != null ==> Knows(k, l) && k.parent[l] == e && k.left[l] == kl.left[l] && k.right[l] == kl.right[l]
    ensures r != null ==> Knows(k, r) && k.parent[r] == e
  {
    hide Snapshot;
    e.left := l;
    e.right := r;
    if l != null { l.parent := e; }
    k := NewRecord({e} + ls + rs);
  }

  /** The same in terms of shapes. */
  method Link<T>(e: Entry<T>, l: Entry?<T>, r: Entry?<T>, ghost tl: Tree<T>, ghost tr: Tree<T>)
    requires Shape(l, tl) && Shape(r, tr) && Distinct(tl) && Distinct(tr)
    requires e !in Entries(tl) && e !in Entries(tr) && Entries(tl) !! Entries(tr)
    requires r != null ==> r.parent == e
    modifies e`left, e`right, Entries(tl)`parent
    ensures Shape(e, Node(e, tl, tr))
  {
    hide Shape, ShapeIn, Distinct, AgreeOn, Knows;
    ghost var kl := Record(l, tl);
    ghost var kr := Record(r, tr);
    RootEntry(kl, l, tl);
    RootEntry(kr, r, tr);
    ghost var k := Adopt(e, l, r, kl, kr, Entries(tl), Entries(tr));
    ShapeReparent(kl, k, l, tl);
    ShapeFrame(kr, k, r, tr);
    JoinShapes(k, e, l, r, tl, tr);
    assert Entries(Node(e, tl, tr)) == {e} + Entries(tl) + Entries(tr);
    FromRecord(k, e, Node(e, tl, tr));
  }

  /** The subtrees of a shape are shapes. */
  lemma Children<T>(n: Entry<T>, t: Tree<T>)
    requires Shape(n, t)
    ensures t.Node? && t.entry == n && Shape(n.left, t.left) && Shape(n.right, t.right)
    ensures n.left != null ==> n.left in Entries(t.left) && n.left.parent == n
    ensures n.right != null ==> n.right in Entries(t.right) && n.right.parent == n
  {
    hide Shape;
    var k := Record(n, t);
    FromRecord(k, n.left, t.left);
    FromRecord(k, n.right, t.right);
  }

  lemma RootOf<T>(n: Entry?<T>, t: Tree<T>)
    requires Shape(n, t)
    ensures n == null <==> t.Leaf?
    ensures n != null ==> t.entry == n && n in Entries(t)
  {
  }

  /** skew_heap_merge. The parent of the result is left as it was: the caller sets it. */
  method Merge<T>(a: Entry?<T>, b: Entry?<T>, comp: (T, T) -> int, ghost ta: Tree<T>, ghost tb: Tree<T>)
    returns (m: Entry?<T>, ghost calls: nat)
    requires Shape(a, ta) && Shape(b, tb)
    requires Distinct(ta) && Distinct(tb) && Entries(ta) !! Entries(tb)
    modifies Entries(ta) + Entries(tb)
    ensures Shape(m, MergeTree(ta, tb, comp))
    ensures m != null ==> m in Entries(ta) + Entries(tb) && m.parent == old(m.parent)
    ensures calls == MergeCalls(ta, tb, comp)
    decreases ta, tb
  {
    RootOf(a, ta);
    RootOf(b, tb);
    hide Shape;
    if a == null {
      return b, 1;
    } else if b == null {
      return a, 1;
    }
    var l, r;
    if comp(a.item, b.item) == -1 {
      Children(a, ta);
      r := a.left;
      ghost var k := Record(r, ta.left);
      l, calls := Merge(a.right, b, comp, ta.right, tb);
      MergeEntries(ta.right, tb, comp);
      MergeDistinct(ta.right, tb, comp);
      FromRecord(k, r, ta.left);
      Link(a, l, r, MergeTree(ta.right, tb, comp), ta.left);
      m := a;
    } else {
      Children(b, tb);
      r := b.left;
      ghost var k := Record(r, tb.left);
      l, calls := Merge(a, b.right, comp, ta, tb.right);
      MergeEntries(ta, tb.right, comp);
      MergeDistinct(ta, tb.right, comp);
      FromRecord(k, r, tb.left);
      Link(b, l, r, MergeTree(ta, tb.right, comp), tb.left);
      m := b;
    }
    calls := calls + 1;
  }

  /** skew_heap_insert: b is initialised and merged in. */
  method InsertEntry<T>(a: Entry?<T>, b: Entry<T>, comp: (T, T) -> int, ghost ta: Tree<T>)
    returns (m: Entry<T>, ghost calls: nat)
    requires Heap(a, ta) && b !in Entries(ta)
    modifies Entries(ta) + {b}
    ensures Heap(m, InsertTree(ta, b, comp))
    ensures calls == MergeCalls(ta, Node(b, Leaf, Leaf), comp)
  {
    hide Shape, ShapeIn, Snapshot, MergeTree, Distinct;
    ghost var ka := Record(a, ta);
    ghost var tb := Node(b, Leaf, Leaf);
    RootOf(a, ta);
    SingleDistinct(b);
    b.left, b.right, b.parent := null, null, null;
    FromRecord(ka, a, ta);
    SingleShape(b);
    var r;
    r, calls := Merge(a, b, comp, ta, tb);
    MergeDistinct(ta, tb, comp);
    MergeEntries(ta, tb, comp);
    MergeRoot(ta, tb, comp);
    RootOf(r, MergeTree(ta, tb, comp));
    m := r;
  }

  lemma SingleDistinct<T>(b: Entry<T>)
    ensures Distinct(Node(b, Leaf, Leaf)) && Entries(Node(b, Leaf, Leaf)) == {b}
  {
  }

  lemma MergeRoot<T>(a: Tree<T>, b: Tree<T>, comp: (T, T) -> int)
    requires b.Node?
    ensures var m := MergeTree(a, b, comp); m.Node? && (m.entry == b.entry || (a.Node? && m.entry == a.entry))
  {
  }

  lemma SingleShape<T>(b: Entry<T>)
    requires b.left == null && b.right == null
    ensures Shape(b, Node(b, Leaf, Leaf))
  {
  }

  // ---------- removal of an arbitrary entry ----------

  /** The entry that e is a child of. */
  function ParentOf<T>(t: Tree<T>, e: Entry<T>): (p: Entry<T>)
    requires e in Entries(t) && e != t.entry
    ensures p in Entries(t)
  {
    if (t.left.Node? && t.left.entry == e) || (t.right.Node? && t.right.entry == e) then t.entry
    else if e in Entries(t.left) then ParentOf(t.left, e)
    else ParentOf(t.right, e)
  }

  lemma {:induction false} SubInside<T>(k: Pointers<T>, n: Entry?<T>, t: Tree<T>, e: Entry<T>)
    requires ShapeIn(k, n, t) && Distinct(t) && e in Entries(t)
    ensures ShapeIn(k, e, Sub(t, e)) && Distinct(Sub(t, e))
    ensures e != t.entry ==> Knows(k, e) && k.parent[e] == ParentOf(t, e) && ParentOf(t, e) !in Entries(Sub(t, e))
  {
    if e != t.entry {
      if e in Entries(t.left) {
        SubInside(k, k.left[t.entry], t.left, e);
      } else {
        SubInside(k, k.right[t.entry], t.right, e);
      }
    }
  }

  /** From k to k', entry p had its child e replaced by m, and every other entry outside e's subtree is untouched. */
  ghost predicate Replaced<T>(
    k: Pointers<T>, k': Pointers<T>, outside: set<Entry<T>>, p: Entry<T>, e: Entry<T>, m: Entry?<T>)
  {
    && (forall x | x in outside && x != p :: AgreeOn(k, k', x))
    && Knows(k, p) && Knows(k', p) && k'.parent[p] == k.parent[p]
    && (if k.left[p] == e then k'.left[p] == m && k'.right[p] == k.right[p]
        else k'.right[p] == m && k'.left[p] == k.left[p])
    && (m != null ==> Knows(k', m) && k'.parent[m] == p)
  }

  lemma {:induction false} ReplaceChild<T>(
    k: Pointers<T>, k': Pointers<T>, n: Entry<T>, t: Tree<T>, e: Entry<T>, m: Entry?<T>, comp: (T, T) -> int)
    requires ShapeIn(k, n, t) && Distinct(t) && e in Entries(t) && e != t.entry
    requires Replaced(k, k', Entries(t) - Entries(Sub(t, e)), ParentOf(t, e), e, m)
    requires ShapeIn(k', m, MergeTree(Sub(t, e).left, Sub(t, e).right, comp))
    ensures ShapeIn(k', n, RemoveTree(t, e, comp))
    ensures t.entry == RemoveTree(t, e, comp).entry && k'.parent[t.entry] == k.parent[t.entry]
  {
    var inLeft := e in Entries(t.left);
    var c := if inLeft then t.left else t.right;
    SubInside(k, n, t, e);
    assert c.Node? && Sub(t, e) == Sub(c, e);
    if c.entry == e {
      ReplaceHere(k, k', n, t, e, m, comp);
    } else {
      assert ParentOf(t, e) == ParentOf(c, e) && t.entry != ParentOf(t, e);
      ReplaceChild(k, k', c.entry, c, e, m, comp);
      ReplaceBelow(k, k', n, t, e, comp);
    }
  }

  lemma RootGone<T>(t: Tree<T>, e: Entry<T>, comp: (T, T) -> int)
    requires t.Node? && t.entry == e
    ensures e in Entries(t) && Sub(t, e) == t && RemoveTree(t, e, comp) == MergeTree(t.left, t.right, comp)
  {
  }

  /** e is a child of the root. */
  lemma ReplaceHere<T>(
    k: Pointers<T>, k': Pointers<T>, n: Entry<T>, t: Tree<T>, e: Entry<T>, m: Entry?<T>, comp: (T, T) -> int)
    requires ShapeIn(k, n, t) && Distinct(t) && e in Entries(t) && e != t.entry && ParentOf(t, e) == t.entry
    requires Replaced(k, k', Entries(t) - Entries(Sub(t, e)), t.entry, e, m)
    requires e == if e in Entries(t.left) then t.left.entry else t.right.entry
    requires ShapeIn(k', m, MergeTree(Sub(t, e).left, Sub(t, e).right, comp))
    ensures ShapeIn(k', n, RemoveTree(t, e, comp))
    ensures t.entry == RemoveTree(t, e, comp).entry && k'.parent[t.entry] == k.parent[t.entry]
  {
    RootEntry(k', m, MergeTree(Sub(t, e).left, Sub(t, e).right, comp));
    if e in Entries(t.left) {
      RootGone(t.left, e, comp);
      ShapeFrame(k, k', k.right[n], t.right);
      assert t.right.Node? ==> AgreeOn(k, k', t.right.entry);
    } else {
      RootGone(t.right, e, comp);
      ShapeFrame(k, k', k.left[n], t.left);
      assert t.left.Node? ==> AgreeOn(k, k', t.left.entry);
    }
  }

  /** e lies deeper, and the replacement in that subtree is done. */
  lemma ReplaceBelow<T>(k: Pointers<T>, k': Pointers<T>, n: Entry<T>, t: Tree<T>, e: Entry<T>, comp: (T, T) -> int)
    requires ShapeIn(k, n, t) && Distinct(t) && e in Entries(t) && e != t.entry && AgreeOn(k, k', n)
    requires forall x | x in Entries(if e in Entries(t.left) then t.right else t.left) :: AgreeOn(k, k', x)
    requires var c := if e in Entries(t.left) then t.left else t.right;
             && c.entry != e && Knows(k, c.entry) && Knows(k', c.entry)
             && ShapeIn(k', c.entry, RemoveTree(c, e, comp))
             && RemoveTree(c, e, comp).entry == c.entry && k'.parent[c.entry] == k.parent[c.entry]
    ensures ShapeIn(k', n, RemoveTree(t, e, comp))
    ensures t.entry == RemoveTree(t, e, comp).entry && k'.parent[t.entry] == k.parent[t.entry]
  {
    if e in Entries(t.left) {
      ShapeFrame(k, k', k.right[n], t.right);
      assert t.right.Node? ==> AgreeOn(k, k', t.right.entry);
    } else {
      ShapeFrame(k, k', k.left[n], t.left);
      assert t.left.Node? ==> AgreeOn(k, k', t.left.entry);
    }
  }

  /** The tail of skew_heap_remove, in terms of pointers. km records the merged subtree m, whose entries are ms. */
  method Splice<T>(p: Entry<T>, b: Entry<T>, m: Entry?<T>,
                   ghost k: Pointers<T>, ghost km: Pointers<T>, ghost all: set<Entry<T>>, ghost ms: set<Entry<T>>)
    returns (ghost k': Pointers<T>)
    requires Matches(k, all) && Matches(km, ms) && p in all && p !in ms && ms !! all
    requires m != null ==> m in ms
    modifies p`left, p`right, ms`parent
    ensures Matches(k', all + ms) && Replaced(k, k', all, p, b, m)
    ensures forall x | x in ms && x != m :: AgreeOn(km, k', x)
    ensures m != null ==> k'.left[m] == km.left[m] && k'.right[m] == km.right[m]
  {
    hide Snapshot;
    if m != null { m.parent := p; }
    if p.left == b {
      p.left := m;
    } else {
      p.right := m;
    }
    k' := NewRecord(all + ms);
  }

  /** The tail of skew_heap_remove in terms of shapes, for an entry that has a parent. */
  method PutInPlace<T>(a: Entry<T>, b: Entry<T>, p: Entry<T>, m: Entry?<T>, ghost comp: (T, T) -> int,
                       ghost ta: Tree<T>, ghost k: Pointers<T>)
    requires ShapeIn(k, a, ta) && Distinct(ta) && b in Entries(ta) && b != ta.entry
    requires p == ParentOf(ta, b) && p in Entries(ta) - Entries(Sub(ta, b))
    requires Matches(k, Entries(ta) - Entries(Sub(ta, b)))
    requires Shape(m, MergeTree(Sub(ta, b).left, Sub(ta, b).right, comp))
    modifies p`left, p`right, Entries(MergeTree(Sub(ta, b).left, Sub(ta, b).right, comp))`parent
    ensures Shape(a, RemoveTree(ta, b, comp))
  {
    hide Shape, ShapeIn, Distinct, MergeTree, AgreeOn;
    ghost var s := Sub(ta, b);
    ghost var t := MergeTree(s.left, s.right, comp);
    ghost var outside := Entries(ta) - Entries(s);
    SubInside(k, a, ta, b);
    SplitDistinct(s);
    MergeEntries(s.left, s.right, comp);
    MergeDistinct(s.left, s.right, comp);
    RemoveEntries(ta, b, comp);
    RootOf(m, t);
    ghost var km := Record(m, t);
    hide RemoveTree, Replaced, Entries, ParentOf, Sub;
    ghost var k' := Splice(p, b, m, k, km, outside, Entries(t));
    ShapeReparent(km, k', m, t);
    ReplaceChild(k, k', a, ta, b, m, comp);
    FromRecord(k', a, RemoveTree(ta, b, comp));
  }

  /** skew_heap_remove: the entry's children are merged and take its place. */
  method RemoveEntry<T>(a: Entry<T>, b: Entry<T>, comp: (T, T) -> int, ghost ta: Tree<T>)
    returns (r: Entry?<T>, ghost calls: nat)
    requires Heap(a, ta) && b in Entries(ta)
    modifies Entries(ta)
    ensures Heap(r, RemoveTree(ta, b, comp))
    ensures calls == MergeCalls(Sub(ta, b).left, Sub(ta, b).right, comp)
  {
    hide Shape, ShapeIn, MergeTree, Distinct, MergeCalls, RemoveTree;
    ghost var s := Sub(ta, b);
    ghost var k := Record(a, ta);
    SubOf(a, ta, b, k);
    hide Sub;
    RemoveEntries(ta, b, comp);
    MergeEntries(s.left, s.right, comp);
    MergeDistinct(s.left, s.right, comp);
    var p := b.parent;
    var m;
    m, calls := Merge(b.left, b.right, comp, s.left, s.right);
    RootOf(m, MergeTree(s.left, s.right, comp));
    hide Entries;
    if p != null {
      InnerRemoved(ta, b, k, a);
      KeepsRoot(ta, b, comp);
      PutInPlace(a, b, p, m, comp, ta, k);
      r := a;
    } else {
      RootRemoved(ta, b, comp, k, a);
      ghost var km := Record(m, MergeTree(s.left, s.right, comp));
      if m != null {
        m.parent := p;
        Reparented(km, m, MergeTree(s.left, s.right, comp));
      }
      r := m;
    }
  }

  lemma KeepsRoot<T>(t: Tree<T>, e: Entry<T>, comp: (T, T) -> int)
    requires e in Entries(t) && e != t.entry
    ensures RemoveTree(t, e, comp).Node? && RemoveTree(t, e, comp).entry == t.entry
  {
  }

  /** The subtree of an entry, seen from the heap. */
  lemma SubOf<T>(a: Entry<T>, t: Tree<T>, b: Entry<T>, k: Pointers<T>)
    requires Shape(a, t) && Distinct(t) && b in Entries(t) && Matches(k, Entries(t)) && ShapeIn(k, a, t)
    ensures var s := Sub(t, b);
            && a == t.entry && a in Entries(t)
            && Entries(t) == {b} + Entries(s.left) + Entries(s.right) + (Entries(t) - Entries(s))
            && Shape(b.left, s.left) && Shape(b.right, s.right)
            && Distinct(s.left) && Distinct(s.right) && Entries(s.left) !! Entries(s.right)
            && b !in Entries(s.left) && b !in Entries(s.right)
            && Entries(s) == {b} + Entries(s.left) + Entries(s.right)
  {
    hide Shape, ShapeIn, Distinct;
    var s := Sub(t, b);
    RootOf(a, t);
    SubInside(k, a, t, b);
    FromRecord(k, b, s);
    Children(b, s);
    SplitDistinct(s);
  }

  lemma SplitDistinct<T>(t: Tree<T>)
    requires Distinct(t) && t.Node?
    ensures Distinct(t.left) && Distinct(t.right) && Entries(t.left) !! Entries(t.right)
    ensures t.entry !in Entries(t.left) && t.entry !in Entries(t.right)
    ensures Entries(t) == {t.entry} + Entries(t.left) + Entries(t.right)
  {
  }

  /** Only the root of a heap has no parent. */
  lemma RootRemoved<T>(t: Tree<T>, b: Entry<T>, comp: (T, T) -> int, k: Pointers<T>, a: Entry<T>)
    requires ShapeIn(k, a, t) && Distinct(t) && b in Entries(t) && Knows(k, b) && k.parent[b] == null
    ensures b == t.entry && RemoveTree(t, b, comp) == MergeTree(Sub(t, b).left, Sub(t, b).right, comp)
  {
    SubInside(k, a, t, b);
  }

  lemma InnerRemoved<T>(t: Tree<T>, b: Entry<T>, k: Pointers<T>, a: Entry<T>)
    requires ShapeIn(k, a, t) && Distinct(t) && b in Entries(t) && Knows(k, b) && k.parent[b] != null
    requires k.parent[t.entry] == null
    ensures b != t.entry && k.parent[b] == ParentOf(t, b) && ParentOf(t, b) in Entries(t) - Entries(Sub(t, b))
    ensures t.entry !in Entries(Sub(t, b))
  {
    SubInside(k, a, t, b);
    assert Sub(t, b) == Sub(if b in Entries(t.left) then t.left else t.right, b);
  }

  lemma Reparented<T>(km: Pointers<T>, m: Entry<T>, t: Tree<T>)
    requires ShapeIn(km, m, t) && Distinct(t)
    requires forall x | x in Entries(t) ::
               Knows(km, x) && km.left[x] == x.left && km.right[x] == x.right && (x != m ==> km.parent[x] == x.parent)
    ensures Shape(m, t)
  {
    hide ShapeIn, Distinct;
    RootEntry(km, m, t);
    var k := NewRecord(Entries(t));
    ShapeReparent(km, k, m, t);
    FromRecord(k, m, t);
  }

  // ---------- whole runs ----------

  lemma {:induction false} LegalPrefix<T>(ops: seq<Op<T>>, i: nat)
    requires Legal(ops) && i <= |ops|
    ensures Legal(ops[..i])
  {
    if i == |ops| {
      assert ops[..i] == ops;
    } else {
      LegalPrefix(ops[..|ops| - 1], i);
      assert ops[..|ops| - 1][..i] == ops[..i];
    }
  }

  lemma {:induction false} MembersNamed<T>(ops: seq<Op<T>>, all: set<Entry<T>>)
    requires forall o | o in ops :: o.entry in all
    ensures Members(ops) <= all
  {
    if ops != [] {
      MembersNamed(ops[..|ops| - 1], all);
      assert ops[|ops| - 1].entry in all;
    }
  }

  /** Any legal run of insertions and removals, on the entries themselves: the result is a heap with correct
      parent pointers that holds exactly the entries inserted and not removed, with a least one at the root,
      and the calls of skew_heap_merge are logarithmic on average. */
  method Execute<T(!new)>(ops: seq<Op<T>>, comp: (T, T) -> int, ghost all: set<Entry<T>>)
    returns (root: Entry?<T>, ghost t: Tree<T>, ghost calls: nat)
    requires Legal(ops) && Comparison(comp) && forall o | o in ops :: o.entry in all
    modifies all
    ensures Heap(root, t) && Ordered(comp, t) && Entries(t) == Members(ops)
    ensures root == null <==> Members(ops) == {}
    ensures forall e | e in Members(ops) :: root != null && root in Members(ops) && NotGreater(comp, root.item, e.item)
    ensures calls <= |ops| * (5 * Log2(Largest(ops) + 1) + 3) && Largest(ops) <= |ops|
  {
    hide Comparison, Legal, Members, Largest, Log2, RunTree, RunCalls, Ordered, Shape;
    root, t, calls := null, Leaf, 0;
    var i := 0;
    EmptyHeap(comp);
    assert ops[..0] == [];
    while i < |ops|
      invariant 0 <= i <= |ops|
      invariant t == RunTree(ops[..i], comp) && Heap(root, t) && calls == RunCalls(ops[..i], comp)
    {
      ghost var c;
      StepReady(ops, i, comp, all);
      assert Entries(t) <= all;
      RootOf(root, t);
      hide Entries;
      match ops[i] {
        case Insert(e) =>
          assert e in all;
          root, c := InsertEntry(root, e, comp, t);
          t := InsertTree(t, e, comp);
        case Remove(e) =>
          root, c := RemoveEntry(root, e, comp, t);
          t := RemoveTree(t, e, comp);
      }
      calls := calls + c;
      i := i + 1;
    }
    assert ops[..i] == ops;
    RunKeepsHeap(ops, comp);
    RunIsLogarithmic(ops, comp);
    LargestIsFew(ops);
    RootOf(root, t);
  }

  lemma EmptyHeap<T(!new)>(comp: (T, T) -> int)
    ensures RunTree<T>([], comp) == Leaf && RunCalls<T>([], comp) == 0
    ensures Shape<T>(null, Leaf) && Distinct<T>(Leaf)
  {
  }

  /** The next operation of a legal run can be carried out. */
  lemma StepReady<T(!new)>(ops: seq<Op<T>>, i: nat, comp: (T, T) -> int, all: set<Entry<T>>)
    requires Legal(ops) && Comparison(comp) && i < |ops| && forall o | o in ops :: o.entry in all
    ensures var t := RunTree(ops[..i], comp);
            && Entries(t) <= all && ops[i].entry in all
            && (ops[i].Insert? ==> ops[i].entry !in Entries(t))
            && (ops[i].Remove? ==> ops[i].entry in Entries(t))
            && RunTree(ops[..i + 1], comp)
                 == (if ops[i].Insert? then InsertTree(t, ops[i].entry, comp) else RemoveTree(t, ops[i].entry, comp))
            && RunCalls(ops[..i + 1], comp) == RunCalls(ops[..i], comp)
                 + (if ops[i].Insert? then MergeCalls(t, Node(ops[i].entry, Leaf, Leaf), comp)
                    else MergeCalls(Sub(t, ops[i].entry).left, Sub(t, ops[i].entry).right, comp))
  {
    hide Comparison, Ordered, Distinct, MergeTree, RemoveTree, MergeCalls;
    LegalPrefix(ops, i);
    LegalPrefix(ops, i + 1);
    assert ops[..i + 1][..i] == ops[..i];
    RunKeepsHeap(ops[..i], comp);
    MembersNamed(ops[..i], all);
  }
}
