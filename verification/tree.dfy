/**
 `BTree::new` and `BTree::insert` (btree.rs lines 45-84), as written.

 `insert` treats the root as full when it holds `2 * min_deg - 1` or more
 elements; it then moves the root's elements and children, in order, into a
 fresh child of an empty root, splits that child, and inserts from the new
 root. The pop-then-reverse loops copy the old root unchanged, so the new
 child is the old root itself.
 */
module Tree {
  import opened Outcomes
  import opened Nodes
  import opened Search
  import opened Split
  import opened NodeInsert

  /** A tree whose root is a leaf holding the one given element; `md` is stored unchecked. */
  function New<V>(k: int, v: V, md: Word): (t: BTree<V>)
    ensures t.root.Leaf? && t.root.elts == [Elt(k, v)]
    ensures Bag(t.root) == multiset{k} && Height(t.root) == 0
    ensures t.minDeg == md
  {
    BTree(Leaf([Elt(k, v)]), md)
  }

  /**
   `min_deg * 2 - 1` in wrapping `uint` arithmetic: the element count from
   which a node counts as full. It is always odd; it is `2t - 1` for every
   `t` from 1 below `2^63`, and a degree of 0 wraps to the largest word.
   */
  function Capacity(md: Word): (ub: nat)
    ensures ub % 2 == 1 && ub < 0x1_0000_0000_0000_0000
    ensures 1 <= md < 0x8000_0000_0000_0000 ==> ub == 2 * md as int - 1
    ensures md == 0 ==> ub == 0xFFFF_FFFF_FFFF_FFFF
  {
    var w := 0x1_0000_0000_0000_0000;
    ((2 * md as int) % w + w - 1) % w
  }

  /** The root split: an empty branch over the old root, with that child split. */
  function GrowRoot<V>(root: Node<V>, ub: nat): (r: Result<Node<V>>)
    ensures r.Panic? <==> ub == 0 && |root.elts| == 0
    ensures |root.elts| < ub ==> r == Ok(Branch([], [root]))
    ensures r.Ok? && |root.elts| >= ub ==>
              && r.value.Branch? && |r.value.elts| == 1 && |r.value.children| == 3
              && r.value.children[2].elts == []
  {
    SplitChild(Branch([], [root]), 0, ub)
  }

  /**
   The node `insert` descends from: the root itself, or, when the root is
   full, the fresh root above it after the root split, one level taller.
   */
  function StartNode<V>(t: BTree<V>): (n: Node<V>)
    ensures Height(n) == Height(t.root) + (if |t.root.elts| >= Capacity(t.minDeg) then 1 else 0)
  {
    var ub := Capacity(t.minDeg);
    if |t.root.elts| >= ub then
      SplitChildHeight(Branch([], [t.root]), 0, ub);
      ForestHeightSingle(t.root);
      GrowRoot(t.root, ub).value
    else t.root
  }

  /**
   `insert(k, v)`. The tree grows by exactly one level when, and only when,
   the root was full; the minimum degree never changes.
   */
  function Insert<V>(t: BTree<V>, k: int, v: V): (r: Result<BTree<V>>)
    ensures r.Ok? ==> r.value.minDeg == t.minDeg
    ensures r.Ok? ==> Height(r.value.root) ==
                      Height(t.root) + (if |t.root.elts| >= Capacity(t.minDeg) then 1 else 0)
  {
    var root :- InsertNonfull(StartNode(t), k, v, Capacity(t.minDeg));
    Ok(BTree(root, t.minDeg))
  }

  /** The root split of a full root never panics. */
  lemma GrowRootOk<V>(root: Node<V>, ub: nat)
    requires ub >= 1 && |root.elts| >= ub
    ensures GrowRoot(root, ub).Ok?
  {
  }

  /**
   Splitting a root of exactly `ub = 2t - 1` elements leaves a new root
   holding only the median, the two halves of `t - 1` elements at
   `children[0]` and `children[1]`, and the drained old root, empty, at
   `children[2]`.
   */
  lemma GrowRootFull<V>(root: Node<V>, ub: nat)
    requires ub % 2 == 1 && |root.elts| == ub
    ensures GrowRoot(root, ub).Ok?
    ensures var g := GrowRoot(root, ub).value;
            var t := (ub + 1) / 2;
            && g.elts == [root.elts[t - 1]]
            && |g.children| == 3
            && g.children[0].elts == root.elts[..t - 1]
            && g.children[1].elts == root.elts[t..]
            && g.children[2].elts == []
  {
    CarveFull(root, (ub + 1) / 2);
  }

  /**
   Inserting into a tree whose root is exactly full: the new root ends with
   the old root's median as its only element and three children.
   */
  lemma InsertFullRoot<V>(t: BTree<V>, k: int, v: V)
    requires |t.root.elts| == Capacity(t.minDeg)
    ensures var r := Insert(t, k, v);
            r.Ok? ==> r.value.root.elts == [t.root.elts[Capacity(t.minDeg) / 2]] &&
                      |r.value.root.children| == 3
  {
    var ub := Capacity(t.minDeg);
    GrowRootFull(t.root, ub);
    var g := GrowRoot(t.root, ub).value;
    var r := InsertNonfull(g, k, v, ub);
    if r.Ok? {
      InsertNonfullBranchStep(g, k, v, ub);
      var idx := BSearch(g.elts, k).value;
      assert !Splits(g, idx, ub);
    }
  }

  /** Every insertion adds exactly `k`, or only overwrites a value when `k` is already stored. */
  lemma InsertContents<V>(t: BTree<V>, k: int, v: V)
    ensures var r := Insert(t, k, v);
            r.Ok? ==> || Bag(r.value.root) == Bag(t.root) + multiset{k}
                      || (k in Bag(t.root) && Bag(r.value.root) == Bag(t.root))
  {
    var ub := Capacity(t.minDeg);
    if |t.root.elts| >= ub {
      var e := Branch([], [t.root]);
      SplitChildKeepsContents(e, 0, ub);
      ForestBagSingle(t.root);
      assert Bag(e) == Bag(t.root);
      var g := GrowRoot(t.root, ub).value;
      InsertNonfullContents(g, k, v, ub);
    } else {
      InsertNonfullContents(t.root, k, v, ub);
    }
  }

  /** Every leaf stays at one depth; a root split pushes them all one level down. */
  lemma InsertUniform<V>(t: BTree<V>, k: int, v: V, h: nat)
    requires UniformHeight(t.root, h)
    ensures var r := Insert(t, k, v);
            var h' := if |t.root.elts| >= Capacity(t.minDeg) then h + 1 else h;
            r.Ok? ==> UniformHeight(r.value.root, h')
  {
    var h' := if |t.root.elts| >= Capacity(t.minDeg) then h + 1 else h;
    StartNodeUniform(t, h);
    InsertNonfullUniform(StartNode(t), k, v, Capacity(t.minDeg), h');
  }

  /** The node insertion starts from is uniform, one level deeper after a root split. */
  lemma StartNodeUniform<V>(t: BTree<V>, h: nat)
    requires UniformHeight(t.root, h)
    ensures UniformHeight(StartNode(t), if |t.root.elts| >= Capacity(t.minDeg) then h + 1 else h)
  {
    var ub := Capacity(t.minDeg);
    if |t.root.elts| >= ub {
      var e := Branch([], [t.root]);
      assert UniformHeight(e, h + 1);
      SplitChildUniform(e, 0, ub, h + 1);
    }
  }

  /**
   While the root is a non-empty leaf and the capacity is above 1
   (`t >= 2`, or a degree whose `2t - 1` wraps), an insertion never panics, however many elements the root
   holds: a root split leaves both halves non-empty.
   */
  lemma InsertLeafRootOk<V>(t: BTree<V>, k: int, v: V)
    requires Capacity(t.minDeg) > 1 && t.root.Leaf? && |t.root.elts| >= 1
    ensures Insert(t, k, v).Ok?
  {
    var ub := Capacity(t.minDeg);
    if |t.root.elts| >= ub {
      var p := Carve(t.root);
      var g := GrowRoot(t.root, ub).value;
      assert g == Branch([p.median], [p.left, p.right, p.drained]);
      LeafChildrenOk(g, k, v, ub);
    }
  }

  /**
   A branch step whose first `|elts| + 1` children are non-empty leaves
   never panics when `ub >= 3`: a split child has at least three elements,
   so both of its halves are non-empty too.
   */
  lemma LeafChildrenOk<V>(g: Node<V>, k: int, v: V, ub: nat)
    requires ub >= 3 && g.Branch? && |g.elts| >= 1 && |g.children| > |g.elts|
    requires forall j :: 0 <= j <= |g.elts| ==> g.children[j].Leaf? && |g.children[j].elts| >= 1
    ensures InsertNonfull(g, k, v, ub).Ok?
  {
    var e, cs := g.elts, g.children;
    var idx := BSearch(e, k).value;
    if Splits(g, idx, ub) {
      var p := Carve(cs[idx]);
      var s := SplitChild(g, idx, ub).value;
      assert s.elts == e[..idx] + [p.median] + e[idx..];
      assert s.children == cs[..idx] + [p.left, p.right, p.drained] + cs[idx + 1..];
      var j := DescentIndex(s.elts, idx, k);
      assert s.children[j] == p.left || s.children[j] == p.right;
    }
  }

  /**
   With a capacity above 1 (`t >= 2`, or a degree whose `2t - 1` wraps)
   the first insertion after `new` gives
   a single leaf with both keys in order, or with the one key and the new
   value.
   */
  lemma NewThenInsert<V>(k: int, v: V, md: Word, k2: int, v2: V)
    requires Capacity(md) > 1
    ensures var r := Insert(New(k, v, md), k2, v2);
            && r.Ok? && r.value.root.Leaf?
            && (k2 < k ==> r.value.root.elts == [Elt(k2, v2), Elt(k, v)])
            && (k2 == k ==> r.value.root.elts == [Elt(k, v2)])
            && (k2 > k ==> r.value.root.elts == [Elt(k, v), Elt(k2, v2)])
  {
  }

  /**
   With `t = 1` the capacity is 1, so the one-element root of a new tree is
   already full: the root split leaves both halves empty and the very first
   insertion panics on an empty node.
   */
  lemma UnitDegreePanics<V>(k: int, v: V, k2: int, v2: V)
    ensures Insert(New(k, v, 1), k2, v2) == Panic(EmptyNode)
  {
    assert Capacity(1) == 1;
    var g := GrowRoot(Leaf([Elt(k, v)]), 1).value;
    assert g.children == [Leaf([]), Leaf([]), Leaf([])];
    var idx := BSearch(g.elts, k2).value;
    assert SplitChild(g, idx, 1) == Ok(g);
    var j := DescentIndex(g.elts, idx, k2);
    assert InsertNonfull(g.children[j], k2, v2, 1) == Panic(EmptyNode);
  }

  /**
   A degree of 0 wraps the capacity to the largest word, so a leaf root
   below that size is never split: every insertion lands in the one leaf.
   */
  lemma ZeroDegreeNeverSplits<V>(t: BTree<V>, k: int, v: V)
    requires t.minDeg == 0 && t.root.Leaf?
    requires 1 <= |t.root.elts| < 0xFFFF_FFFF_FFFF_FFFF
    ensures var r := Insert(t, k, v);
            && r.Ok? && r.value.root.Leaf?
            && |r.value.root.elts| >= |t.root.elts|
  {
    var idx := BSearch(t.root.elts, k).value;
    if !(idx < |t.root.elts| && t.root.elts[idx].key == k) {
      LeafPutAdds(t.root.elts, idx, k, v);
    }
  }
}
