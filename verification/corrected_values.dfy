/**
 What the corrected insertion does to the values: on a well-formed tree,
 `insert(k, v)` leaves `k` mapped to `v` and to nothing else, and every
 other key mapped exactly as before. This is the upsert that `btree.rs`
 lines 148-149 promise at the leaf, carried through the whole tree.
 */
module CorrectedValues {
  import opened Nodes
  import opened Split
  import opened Corrected
  import opened Ordering
  import opened KeyValues
  import opened CorrectedTree
  import NodeInsert
  import Tree

  /** In ascending elements the element at `i` is the only one under its key. */
  lemma OnlyAt<V>(e: seq<Elt<V>>, i: nat)
    requires i < |e| && Ascending(e)
    ensures forall x: Elt<V> :: x.key == e[i].key ==> multiset(e)[x] == (if x == e[i] then 1 else 0)
  {
    var pre, post := e[..i], e[i + 1..];
    assert e == pre + [e[i]] + post;
    NotHeldAbsent(pre, e[i].key);
    forall j | 0 <= j < |post| ensures post[j].key != e[i].key {
      assert post[j] == e[i + 1 + j];
    }
    NotHeldAbsent(post, e[i].key);
  }

  /** Overwriting the value at `i` of ascending elements is an upsert of that key. */
  lemma PutValueUpserts<V(!new)>(e: seq<Elt<V>>, i: nat, v: V)
    requires i < |e| && Ascending(e)
    ensures Upserted(multiset(e), multiset(PutValue(e, i, v)), e[i].key, v)
  {
    var k := e[i].key;
    var e' := PutValue(e, i, v);
    assert e' == e[i := Elt(k, v)];
    assert Ascending(e');
    OnlyAt(e, i);
    OnlyAt(e', i);
    SwapAt(e, i, Elt(k, v));
  }

  /** The leaf step at the corrected index is an upsert. */
  lemma LeafPutUpserts<V(!new)>(e: seq<Elt<V>>, k: int, v: V)
    requires Ascending(e)
    ensures Upserted(multiset(e), multiset(NodeInsert.LeafPut(e, LowerBound(e, k), k, v)), k, v)
  {
    var idx := LowerBound(e, k);
    if idx < |e| && e[idx].key == k {
      assert NodeInsert.LeafPut(e, idx, k, v) == PutValue(e, idx, v);
      PutValueUpserts(e, idx, v);
    } else {
      SlotNotStored(e, k, idx);
      NotHeldAbsent(e, k);
      if idx < |e| {
        InsertAtEntries(e, idx, Elt(k, v));
      }
    }
  }

  /** No child of an ordered branch holds the key of one of its elements. */
  lemma SeparatorChildrenLack<V>(s: Node<V>, i: nat, lo: Bound, hi: Bound)
    requires Ordered(s, lo, hi) && s.Branch? && i < |s.elts|
    ensures forall j :: 0 <= j < |s.children| ==> s.elts[i].key !in Bag(s.children[j])
  {
    var e, cs := s.elts, s.children;
    forall j | 0 <= j < |cs| ensures e[i].key !in Bag(cs[j]) {
      OrderedBagInRange(cs[j], LoOf(e, lo, j), HiOf(e, hi, j));
      if j <= i {
        assert HiOf(e, hi, j) == Sep(e[j].key);
        assert e[j].key <= e[i].key;
      } else {
        assert LoOf(e, lo, j) == Sep(e[j - 1].key);
        assert e[i].key <= e[j - 1].key;
      }
    }
  }

  /** Overwriting the value of an element of an ordered branch is an upsert of its key. */
  lemma BranchOverwriteUpserts<V(!new)>(s: Node<V>, i: nat, v: V, lo: Bound, hi: Bound)
    requires Ordered(s, lo, hi) && s.Branch? && i < |s.elts|
    ensures Upserted(Entries(s), Entries(Branch(PutValue(s.elts, i, v), s.children)), s.elts[i].key, v)
  {
    PutValueUpserts(s.elts, i, v);
    SeparatorChildrenLack(s, i, lo, hi);
    ForestKeyAbsent(s.children, s.elts[i].key);
  }

  /**
   Replacing the one child that can hold `k` by that child with `k`
   upserted, in a branch whose elements do not hold `k`, upserts `k` in the
   parent.
   */
  lemma ReplaceChildUpserts<V(!new)>(s: Node<V>, j: nat, c: Node<V>, k: int, v: V)
    requires s.Branch? && j < |s.children| && NotStored(s.elts, k)
    requires forall j' :: 0 <= j' < |s.children| && j' != j ==> k !in Bag(s.children[j'])
    requires Upserted(Entries(s.children[j]), Entries(c), k, v)
    ensures Upserted(Entries(s), Entries(Branch(s.elts, s.children[j := c])), k, v)
  {
    var cs := s.children;
    var cs' := cs[j := c];
    ForestEntriesAround(cs, j);
    ForestEntriesAround(cs', j);
    var pre, post := cs[..j], cs[j + 1..];
    assert cs'[..j] == pre && cs'[j + 1..] == post;
    forall i | 0 <= i < |pre| ensures k !in Bag(pre[i]) {
      assert pre[i] == cs[i];
    }
    forall i | 0 <= i < |post| ensures k !in Bag(post[i]) {
      assert post[i] == cs[j + 1 + i];
    }
    ForestKeyAbsent(pre, k);
    ForestKeyAbsent(post, k);
    NotHeldAbsent(s.elts, k);
    UpsertAmong(multiset(s.elts), ForestEntries(pre), ForestEntries(post), Entries(cs[j]), Entries(c), k, v);
  }

  /** An upsert of `k` in one part of a whole whose other parts hold nothing under `k` is an upsert of the whole. */
  lemma UpsertAmong<V(!new)>(m: multiset<Elt<V>>, p: multiset<Elt<V>>, q: multiset<Elt<V>>,
                             a: multiset<Elt<V>>, b: multiset<Elt<V>>, k: int, v: V)
    requires forall x: Elt<V> :: x.key == k ==> m[x] == 0
    requires forall x: Elt<V> :: x.key == k ==> p[x] == 0
    requires forall x: Elt<V> :: x.key == k ==> q[x] == 0
    requires Upserted(a, b, k, v)
    ensures Upserted(m + (p + a + q), m + (p + b + q), k, v)
  {
  }

  /**
   Insertion into an ordered, sized node with room, whose bounds admit `k`,
   maps `k` to `v` alone and leaves every other key's elements as they were.
   */
  lemma {:induction false} InsertNonfullUpserts<V(!new)>(n: Node<V>, k: int, v: V, ub: nat,
                                                         lo: Bound, hi: Bound, least: nat)
    requires ub % 2 == 1
    requires Ordered(n, lo, hi) && Sized(n, least, ub) && |n.elts| < ub
    requires Above(k, lo) && Below(k, hi)
    ensures var r := InsertNonfull(n, k, v, ub);
            r.Ok? && Upserted(Entries(n), Entries(r.value), k, v)
    decreases Height(n)
  {
    var e := n.elts;
    var idx := LowerBound(e, k);
    InsertNonfullValid(n, k, v, ub, lo, hi, least);
    if n.Leaf? {
      LeafPutUpserts(e, k, v);
    } else if idx < |e| && e[idx].key == k {
      SeparatorOverwrite(n, k, v, ub);
      BranchOverwriteUpserts(n, idx, v, lo, hi);
    } else {
      DescentChildReady(n, k, ub, lo, hi, least);
      SplitChildReplacingKeepsEntries(n, idx, ub);
      var s := SplitChildReplacing(n, idx, ub).value;
      if idx < |s.elts| && s.elts[idx].key == k {
        MedianOverwrite(n, k, v, ub);
        BranchOverwriteUpserts(s, idx, v, lo, hi);
      } else {
        DescentStep(n, k, v, ub);
        var j := DescentIndexFixed(s.elts, idx, k);
        var lo', hi' := LoOf(s.elts, lo, j), HiOf(s.elts, hi, j);
        InsertNonfullUpserts(s.children[j], k, v, ub, lo', hi', ub / 2);
        forall j' | 0 <= j' < |s.children| && j' != j ensures k !in Bag(s.children[j']) {
          OtherChildLacks(s, j, j', k, lo, hi);
        }
        ReplaceChildUpserts(s, j, InsertNonfull(s.children[j], k, v, ub).value, k, v);
      }
    }
  }

  /** The corrected root split keeps every element of the old root. */
  lemma StartNodeKeepsEntries<V>(t: BTree<V>)
    ensures Entries(StartNode(t)) == Entries(t.root)
  {
    var ub := Tree.Capacity(t.minDeg);
    if |t.root.elts| >= ub {
      SplitChildReplacingKeepsEntries(Branch([], [t.root]), 0, ub);
      ForestEntriesSingle(t.root);
    }
  }

  /**
   On a well-formed tree the corrected `insert(k, v)` is an upsert: `k`
   holds `v` exactly once and no other value, and the elements under every
   other key are as they were.
   */
  lemma InsertUpserts<V(!new)>(t: BTree<V>, k: int, v: V)
    requires Valid(t)
    ensures Insert(t, k, v).Ok?
    ensures Upserted(Entries(t.root), Entries(Insert(t, k, v).value.root), k, v)
  {
    StartNodeReady(t);
    StartNodeKeepsEntries(t);
    InsertNonfullUpserts(StartNode(t), k, v, Tree.Capacity(t.minDeg), Open, Open, 1);
  }

  /**
   The same, as a map: after the corrected insertion `k` maps to `v` and to
   no other value, and every other key maps to exactly the values it mapped
   to before.
   */
  lemma InsertMapsKey<V(!new)>(t: BTree<V>, k: int, v: V)
    requires Valid(t)
    ensures Insert(t, k, v).Ok?
    ensures var root := Insert(t, k, v).value.root;
            && (forall w :: Elt(k, w) in Entries(root) <==> w == v)
            && (forall x, w :: x != k ==> (Elt(x, w) in Entries(root) <==> Elt(x, w) in Entries(t.root)))
  {
    InsertUpserts(t, k, v);
    var root := Insert(t, k, v).value.root;
    forall w ensures Elt(k, w) in Entries(root) <==> w == v {
      assert Entries(root)[Elt(k, w)] == if w == v then 1 else 0;
    }
  }
}
