/**
 `Node::split_child` (btree.rs lines 88-134), as written.

 The pop-then-reverse loops move a suffix of a vector to a new vector in
 its original order, so each loop is a slice here. The split fires when the
 child holds `ub` or more elements (`>=`, so an over-full child splits too),
 and it inserts the two new halves at `i` and `i + 1` WITHOUT removing the
 drained original child, which shifts to `i + 2` holding no elements.
 */
module Split {
  import opened Outcomes
  import opened Nodes

  /**
   What the loops carve out of a child with `n >= 1` elements: the last
   `n / 2` elements go right, the element before them is the median, the
   rest go left; with `g` grandchildren the last `g / 2` go right and the
   first `g - g / 2` go left. `drained` is the emptied child itself.
   */
  datatype Pieces<V> = Pieces(left: Node<V>, median: Elt<V>, right: Node<V>, drained: Node<V>)

  function Carve<V>(c: Node<V>): (p: Pieces<V>)
    requires |c.elts| >= 1
    ensures p.left.elts + [p.median] + p.right.elts == c.elts
    ensures |p.right.elts| == |c.elts| / 2
    ensures p.left.Leaf? == c.Leaf? && p.right.Leaf? == c.Leaf? && p.drained.Leaf? == c.Leaf?
    ensures c.Branch? ==> p.left.children + p.right.children == c.children
    ensures c.Branch? ==> |p.right.children| == |c.children| / 2
    ensures p.drained.elts == [] && (p.drained.Branch? ==> p.drained.children == [])
  {
    var n := |c.elts|;
    var m := n - n / 2 - 1;
    match c
    case Leaf(e) =>
      assert e[..m] + [e[m]] + e[m + 1..] == e;
      Pieces(Leaf(e[..m]), e[m], Leaf(e[m + 1..]), Leaf([]))
    case Branch(e, g) =>
      var gm := |g| - |g| / 2;
      assert e[..m] + [e[m]] + e[m + 1..] == e;
      assert g[..gm] + g[gm..] == g;
      Pieces(Branch(e[..m], g[..gm]), e[m], Branch(e[m + 1..], g[gm..]), Branch([], []))
  }

  /** Whether `split_child(i, ub)` on `n` gets past its guard and really splits. */
  predicate Splits<V>(n: Node<V>, i: nat, ub: nat)
    ensures ub >= 1 && Splits(n, i, ub) ==> n.Branch? && i < |n.children| && n.children[i].elts != []
    ensures n.Branch? && i < |n.children| && |n.children[i].elts| == ub ==> Splits(n, i, ub)
  {
    n.Branch? && i < |n.children| && |n.children[i].elts| >= ub
  }

  /** `split_child(i, ub)`: the parent after the split, or the panic that stops it. */
  function SplitChild<V>(n: Node<V>, i: nat, ub: nat): (r: Result<Node<V>>)
    ensures r.Panic? <==> (n.Leaf? || i >= |n.children| ||
                           (Splits(n, i, ub) && (|n.children[i].elts| == 0 || i > |n.elts|)))
    ensures n.Branch? && i < |n.children| && !Splits(n, i, ub) ==> r == Ok(n)
    ensures r.Ok? ==> r.value.Branch?
  {
    match n
    case Leaf(_) => Panic(NotBranch)
    case Branch(e, cs) =>
      if i >= |cs| then Panic(ChildOutOfRange)
      else if |cs[i].elts| < ub then Ok(n)
      else if |cs[i].elts| == 0 then Panic(EmptyNode)
      else if i > |e| then Panic(EltOutOfRange)
      else
        var p := Carve(cs[i]);
        Ok(Branch(e[..i] + [p.median] + e[i..], cs[..i] + [p.left, p.right, p.drained] + cs[i + 1..]))
  }

  /**
   The parent after a real split: the median enters `elts` at `i`, the two
   halves sit at `i` and `i + 1` and put back together around the median
   give the old child, and the drained child follows them at `i + 2` with no
   elements; everything else keeps its place.
   */
  lemma SplitChildParent<V>(n: Node<V>, i: nat, ub: nat)
    requires Splits(n, i, ub) && |n.children[i].elts| >= 1 && i <= |n.elts|
    ensures SplitChild(n, i, ub).Ok?
    ensures var s := SplitChild(n, i, ub).value;
            var c := n.children[i];
            && |s.elts| == |n.elts| + 1
            && s.elts[..i] == n.elts[..i] && s.elts[i + 1..] == n.elts[i..]
            && s.elts[i] == c.elts[|c.elts| - |c.elts| / 2 - 1]
            && |s.children| == |n.children| + 2
            && s.children[..i] == n.children[..i]
            && s.children[i + 3..] == n.children[i + 1..]
            && s.children[i].elts + [s.elts[i]] + s.children[i + 1].elts == c.elts
            && s.children[i + 2].elts == []
  {
    var s := SplitChild(n, i, ub).value;
    var e := n.elts;
    var c := n.children[i];
    var p := Carve(c);
    assert s.elts == e[..i] + [p.median] + e[i..];
    assert s.elts[..i] == e[..i];
    assert s.elts[i + 1..] == e[i..];
    assert p.median == c.elts[|c.elts| - |c.elts| / 2 - 1] by {
      assert |p.left.elts| == |c.elts| - |c.elts| / 2 - 1;
      assert (p.left.elts + [p.median] + p.right.elts)[|p.left.elts|] == p.median;
    }
  }

  /**
   For a child holding exactly `2t - 1` elements (and `2t` children if it is
   a branch) both halves get `t - 1` elements (and `t` children), and the
   median is the element at `t - 1`.
   */
  lemma CarveFull<V>(c: Node<V>, t: nat)
    requires t >= 1 && |c.elts| == 2 * t - 1
    ensures var p := Carve(c);
            && |p.left.elts| == t - 1 && |p.right.elts| == t - 1
            && p.median == c.elts[t - 1]
            && p.left.elts == c.elts[..t - 1] && p.right.elts == c.elts[t..]
            && (c.Branch? && |c.children| == 2 * t ==> |p.left.children| == t && |p.right.children| == t)
  {
    var p := Carve(c);
    assert |p.left.elts| == t - 1;
    calc {
      c.elts[..t - 1];
      (p.left.elts + [p.median] + p.right.elts)[..t - 1];
      p.left.elts;
    }
    calc {
      c.elts[t..];
      (p.left.elts + [p.median] + p.right.elts)[t..];
      p.right.elts;
    }
    assert c.elts[t - 1] == (p.left.elts + [p.median] + p.right.elts)[t - 1];
  }

  /**
   An over-full child with an even number `n` of elements and `n + 1`
   children splits unevenly: the left half gets two more children than it
   can use and the right half gets as many children as elements.
   */
  lemma CarveOverfullMisaligns<V>(c: Node<V>)
    requires c.Branch? && |c.elts| >= 2 && |c.elts| % 2 == 0
    requires |c.children| == |c.elts| + 1
    ensures var p := Carve(c);
            && |p.left.children| == |p.left.elts| + 2
            && |p.right.children| == |p.right.elts|
  {
  }

  /** A split leaves the parent with two more children than elements if it had one more before. */
  lemma SplitChildBreaksFanout<V>(n: Node<V>, i: nat, ub: nat)
    requires n.Branch? && |n.children| == |n.elts| + 1
    requires Splits(n, i, ub) && |n.children[i].elts| >= 1
    ensures SplitChild(n, i, ub).Ok?
    ensures |SplitChild(n, i, ub).value.children| == |SplitChild(n, i, ub).value.elts| + 2
  {
    SplitChildParent(n, i, ub);
  }

  /** The two halves and the median hold exactly the child's keys. */
  lemma CarveHalvesContents<V>(c: Node<V>)
    requires |c.elts| >= 1
    ensures var p := Carve(c);
            Bag(p.left) + Bag(p.right) + multiset{p.median.key} == Bag(c)
  {
    var p := Carve(c);
    KeysAround(p.left.elts, p.median, p.right.elts);
    if c.Branch? {
      ForestBagConcat(p.left.children, p.right.children);
    }
  }

  /** The carved pieces hold the child's keys: the median's plus those of the three new nodes. */
  lemma CarveKeepsContents<V>(c: Node<V>)
    requires |c.elts| >= 1
    ensures var p := Carve(c);
            ForestBag([p.left, p.right, p.drained]) + multiset{p.median.key} == Bag(c)
  {
    var p := Carve(c);
    ForestBagThree(p.left, p.right, p.drained);
    assert Bag(p.drained) == multiset{} by {
      assert Keys(p.drained.elts) == [];
    }
    CarveHalvesContents(c);
  }

  /** A split moves elements around but neither loses nor adds a key. */
  lemma SplitChildKeepsContents<V>(n: Node<V>, i: nat, ub: nat)
    ensures SplitChild(n, i, ub).Ok? ==> Bag(SplitChild(n, i, ub).value) == Bag(n)
  {
    var r := SplitChild(n, i, ub);
    if r.Ok? && Splits(n, i, ub) {
      var cs := n.children;
      var p := Carve(cs[i]);
      var trio := [p.left, p.right, p.drained];
      assert r.value.elts == n.elts[..i] + [p.median] + n.elts[i..];
      assert r.value.children == cs[..i] + trio + cs[i + 1..];
      // the parent's keys gain the median
      KeysInsertAt(n.elts, i, p.median);
      // the three new children hold the old child's keys minus the median
      CarveKeepsContents(cs[i]);
      // and the forest around them is unchanged
      ForestBagAround(cs, i);
      ForestBagSandwich(cs[..i], trio, cs[i + 1..]);
    }
  }

  /** A split never changes the parent's height, so no child of the result is as tall as the parent. */
  lemma SplitChildHeight<V>(n: Node<V>, i: nat, ub: nat)
    ensures SplitChild(n, i, ub).Ok? ==>
              ForestHeight(SplitChild(n, i, ub).value.children) == ForestHeight(n.children)
  {
    var r := SplitChild(n, i, ub);
    if r.Ok? && Splits(n, i, ub) {
      var cs := n.children;
      var c := cs[i];
      var p := Carve(c);
      var trio := [p.left, p.right, p.drained];
      assert trio == [p.left] + [p.right] + [p.drained];
      ForestHeightConcat([p.left] + [p.right], [p.drained]);
      ForestHeightConcat([p.left], [p.right]);
      ForestHeightSingle(p.left);
      ForestHeightSingle(p.right);
      ForestHeightSingle(p.drained);
      if c.Branch? {
        ForestHeightConcat(p.left.children, p.right.children);
      }
      assert ForestHeight(trio) == Height(c);
      assert r.value.children == cs[..i] + trio + cs[i + 1..];
      assert cs == cs[..i] + [c] + cs[i + 1..];
      ForestHeightConcat(cs[..i] + [c], cs[i + 1..]);
      ForestHeightConcat(cs[..i], [c]);
      ForestHeightSingle(c);
      ForestHeightConcat(cs[..i] + trio, cs[i + 1..]);
      ForestHeightConcat(cs[..i], trio);
    }
  }

  /** A split keeps every leaf at the same depth: the halves take the child's place one level down. */
  lemma SplitChildUniform<V>(n: Node<V>, i: nat, ub: nat, h: nat)
    requires UniformHeight(n, h)
    ensures SplitChild(n, i, ub).Ok? ==> UniformHeight(SplitChild(n, i, ub).value, h)
  {
    var r := SplitChild(n, i, ub);
    if r.Ok? && Splits(n, i, ub) {
      var cs := n.children;
      var c := cs[i];
      var p := Carve(c);
      var s := r.value.children;
      assert s == cs[..i] + [p.left, p.right, p.drained] + cs[i + 1..];
      assert UniformHeight(c, h - 1);
      if c.Branch? {
        forall j | 0 <= j < |p.left.children| ensures UniformHeight(p.left.children[j], h - 2) {
          assert p.left.children[j] == (p.left.children + p.right.children)[j];
        }
        forall j | 0 <= j < |p.right.children| ensures UniformHeight(p.right.children[j], h - 2) {
          assert p.right.children[j] == (p.left.children + p.right.children)[|p.left.children| + j];
        }
      }
      forall j | 0 <= j < |s| ensures UniformHeight(s[j], h - 1) {
        if j < i {
          assert s[j] == cs[j];
        } else if j >= i + 3 {
          assert s[j] == cs[j - 2];
        }
      }
    }
  }
}
