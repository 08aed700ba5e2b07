/**
 The evidently intended versions of the three steps of btree.rs that go
 wrong as written, each with the property the surrounding code relies on:

 - a binary search that returns the insertion point (`bsearch_node`,
   lines 187-217, has its `Less` and `Greater` arms swapped);
 - a split that replaces the full child by its two halves (`split_child`,
   lines 88-134, leaves the drained child behind);
 - a descent that steps right of the new median when the key is larger
   (`insert_nonfull`, lines 170-173, steps right when it is smaller).
 */
module Corrected {
  import opened Outcomes
  import opened Nodes
  import opened Split

  /** At most one index is where `k` belongs, whatever the order of the keys. */
  lemma SlotUnique<V>(elts: seq<Elt<V>>, k: int, i: nat, j: nat)
    requires IsSlot(elts, k, i) && IsSlot(elts, k, j)
    ensures i == j
  {
    var m := if i < j then i else j;
    assert m < |elts| ==>
             var x := elts[m].key;
             && (m < i || m < j ==> x < k)
             && (m >= i || m >= j ==> k <= x);
  }

  /**
   Bisection over `[lo, hi)` with the arms the right way round. When the keys
   ascend, every key before `lo` is below `k` and every key from `hi` on is
   at least `k`, it ends on the insertion point.
   */
  function Bisect<V>(elts: seq<Elt<V>>, k: int, lo: nat, hi: nat): (r: nat)
    requires lo <= hi <= |elts|
    ensures lo <= r <= hi
    ensures && Ascending(elts)
            && (forall j :: 0 <= j < lo ==> elts[j].key < k)
            && (forall j :: hi <= j < |elts| ==> k <= elts[j].key)
            ==> IsSlot(elts, k, r)
    decreases hi - lo
  {
    if lo == hi then lo
    else
      var mid := (lo + hi) / 2;
      if elts[mid].key < k then
        assert Ascending(elts) ==> forall j :: 0 <= j < mid ==> elts[j].key < elts[mid].key;
        Bisect(elts, k, mid + 1, hi)
      else
        assert Ascending(elts) ==> forall j :: mid < j < |elts| ==> elts[mid].key < elts[j].key;
        Bisect(elts, k, lo, mid)
  }

  /**
   The corrected search. It never panics, not even on an empty node, and on
   ascending keys it returns the one index where `k` belongs.
   */
  function LowerBound<V>(elts: seq<Elt<V>>, k: int): (r: nat)
    ensures r <= |elts|
    ensures Ascending(elts) ==> IsSlot(elts, k, r)
    ensures Ascending(elts) ==> forall i: nat :: IsSlot(elts, k, i) ==> i == r
  {
    var r := Bisect(elts, k, 0, |elts|);
    forall i: nat | Ascending(elts) && IsSlot(elts, k, i) ensures i == r {
      SlotUnique(elts, k, i, r);
    }
    r
  }

  /** The corrected search as a loop narrowing `[lo, hi)`; it computes `LowerBound`. */
  method LowerBoundLoop<V>(elts: seq<Elt<V>>, k: int) returns (r: nat)
    ensures r == LowerBound(elts, k)
    ensures Ascending(elts) ==> IsSlot(elts, k, r)
  {
    var lo: nat, hi: nat := 0, |elts|;
    while lo < hi
      invariant lo <= hi <= |elts|
      invariant Bisect(elts, k, lo, hi) == Bisect(elts, k, 0, |elts|)
      decreases hi - lo
    {
      var mid := (lo + hi) / 2;
      if elts[mid].key < k {
        lo := mid + 1;
      } else {
        hi := mid;
      }
    }
    r := lo;
  }

  /** Every branch has one more child than elements, all the way down. */
  predicate Fanout<V>(n: Node<V>) {
    match n
    case Leaf(_) => true
    case Branch(e, cs) => |cs| == |e| + 1 && forall j :: 0 <= j < |cs| ==> Fanout(cs[j])
  }

  /**
   The corrected split: the same guard and the same halves, but the full
   child is replaced by them rather than kept as a third, drained child.
   */
  function SplitChildReplacing<V>(n: Node<V>, i: nat, ub: nat): (r: Result<Node<V>>)
    ensures r.Panic? <==> (n.Leaf? || i >= |n.children| ||
                           (Splits(n, i, ub) && (|n.children[i].elts| == 0 || i > |n.elts|)))
    ensures n.Branch? && i < |n.children| && !Splits(n, i, ub) ==> r == Ok(n)
    ensures r.Ok? ==> r.value.Branch?
    ensures r.Ok? && Splits(n, i, ub) ==>
              |r.value.elts| == |n.elts| + 1 && |r.value.children| == |n.children| + 1
  {
    match n
    case Leaf(_) => Panic(NotBranch)
    case Branch(e, cs) =>
      if i >= |cs| then Panic(ChildOutOfRange)
      else if |cs[i].elts| < ub then Ok(n)
      else if |cs[i].elts| == 0 then Panic(EmptyNode)
      else if i > |e| then Panic(EltOutOfRange)
      else
        var p := Carve(cs[i]);
        Ok(Branch(e[..i] + [p.median] + e[i..], cs[..i] + [p.left, p.right] + cs[i + 1..]))
  }

  /** Carving a child with an odd number of elements keeps each half's fanout. */
  lemma CarveKeepsFanout<V>(c: Node<V>)
    requires |c.elts| >= 1 && |c.elts| % 2 == 1 && Fanout(c)
    ensures Fanout(Carve(c).left) && Fanout(Carve(c).right)
  {
    var p := Carve(c);
    if c.Branch? {
      var cs := c.children;
      assert |p.left.children| == |p.left.elts| + 1;
      assert |p.right.children| == |p.right.elts| + 1;
      forall j | 0 <= j < |p.left.children| ensures Fanout(p.left.children[j]) {
        assert p.left.children[j] == cs[j];
      }
      forall j | 0 <= j < |p.right.children| ensures Fanout(p.right.children[j]) {
        assert p.right.children[j] == cs[|p.left.children| + j];
      }
    }
  }

  /**
   Where the as-written split leaves two more children than elements, the
   corrected one keeps the fanout of a well-formed parent whose full child
   holds an odd number (such as `2t - 1`) of elements.
   */
  lemma SplitChildReplacingFanout<V>(n: Node<V>, i: nat, ub: nat)
    requires Fanout(n) && Splits(n, i, ub)
    requires |n.children[i].elts| % 2 == 1
    ensures SplitChildReplacing(n, i, ub).Ok?
    ensures Fanout(SplitChildReplacing(n, i, ub).value)
  {
    var cs := n.children;
    var p := Carve(cs[i]);
    CarveKeepsFanout(cs[i]);
    var s := SplitChildReplacing(n, i, ub).value;
    assert s.children == cs[..i] + [p.left, p.right] + cs[i + 1..];
    forall j | 0 <= j < |s.children| ensures Fanout(s.children[j]) {
      if j < i {
        assert s.children[j] == cs[j];
      } else if j >= i + 2 {
        assert s.children[j] == cs[j - 1];
      }
    }
  }

  /** The corrected split, like the as-written one, neither loses nor adds a key. */
  lemma SplitChildReplacingKeepsContents<V>(n: Node<V>, i: nat, ub: nat)
    ensures SplitChildReplacing(n, i, ub).Ok? ==> Bag(SplitChildReplacing(n, i, ub).value) == Bag(n)
  {
    var r := SplitChildReplacing(n, i, ub);
    if r.Ok? && Splits(n, i, ub) {
      var cs := n.children;
      var p := Carve(cs[i]);
      var pair := [p.left, p.right];
      assert r.value.elts == n.elts[..i] + [p.median] + n.elts[i..];
      assert r.value.children == cs[..i] + pair + cs[i + 1..];
      KeysInsertAt(n.elts, i, p.median);
      CarveHalvesContents(cs[i]);
      ForestBagTwo(p.left, p.right);
      ForestBagAround(cs, i);
      ForestBagSandwich(cs[..i], pair, cs[i + 1..]);
    }
  }

  /** The corrected split keeps the height of the parent's children. */
  lemma SplitChildReplacingHeight<V>(n: Node<V>, i: nat, ub: nat)
    ensures SplitChildReplacing(n, i, ub).Ok? ==>
              ForestHeight(SplitChildReplacing(n, i, ub).value.children) == ForestHeight(n.children)
  {
    var r := SplitChildReplacing(n, i, ub);
    if r.Ok? && Splits(n, i, ub) {
      var cs := n.children;
      var c := cs[i];
      var p := Carve(c);
      var pair := [p.left, p.right];
      assert pair == [p.left] + [p.right];
      ForestHeightConcat([p.left], [p.right]);
      ForestHeightSingle(p.left);
      ForestHeightSingle(p.right);
      if c.Branch? {
        ForestHeightConcat(p.left.children, p.right.children);
      }
      assert ForestHeight(pair) == Height(c);
      assert r.value.children == cs[..i] + pair + cs[i + 1..];
      assert cs == cs[..i] + [c] + cs[i + 1..];
      ForestHeightConcat(cs[..i] + [c], cs[i + 1..]);
      ForestHeightConcat(cs[..i], [c]);
      ForestHeightSingle(c);
      ForestHeightConcat(cs[..i] + pair, cs[i + 1..]);
      ForestHeightConcat(cs[..i], pair);
    }
  }

  /** The corrected split keeps every leaf at the same depth. */
  lemma SplitChildReplacingUniform<V>(n: Node<V>, i: nat, ub: nat, h: nat)
    requires UniformHeight(n, h)
    ensures SplitChildReplacing(n, i, ub).Ok? ==> UniformHeight(SplitChildReplacing(n, i, ub).value, h)
  {
    var r := SplitChildReplacing(n, i, ub);
    if r.Ok? && Splits(n, i, ub) {
      var cs := n.children;
      var c := cs[i];
      var p := Carve(c);
      var s := r.value.children;
      assert s == cs[..i] + [p.left, p.right] + cs[i + 1..];
      assert UniformHeight(c, h - 1);
      if c.Branch? {
        forall j | 0 <= j < |p.left.children| ensures UniformHeight(p.left.children[j], h - 2) {
          assert p.left.children[j] == (p.left.children + p.right.children)[j];
        }
        forall j | 0 <= j < |p.right.children| ensures UniformHeight(p.right.children[j], h - 2) {
          assert p.right.children[j] == (p.left.children + p.right.children)[|p.left.children| + j];
        }
      }
      forall j | 0 <= j < |s| ensures UniformHeight(s[j], h - 1) {
        if j < i {
          assert s[j] == cs[j];
        } else if j >= i + 2 {
          assert s[j] == cs[j - 1];
        }
      }
    }
  }

  /** The corrected adjustment: step past the element at `idx` when `k` is larger than it. */
  function DescentIndexFixed<V>(e: seq<Elt<V>>, idx: nat, k: int): (j: nat)
    ensures j == idx || (j == idx + 1 && idx < |e|)
  {
    if idx < |e| && e[idx].key < k then idx + 1 else idx
  }

  /**
   After a split at the insertion point `idx` the median sits at `idx` with
   smaller keys before and larger-or-equal keys after it; the corrected
   adjustment then picks exactly the child range `k` belongs to.
   */
  lemma DescentIndexFixedSlot<V>(e: seq<Elt<V>>, idx: nat, k: int)
    requires idx <= |e|
    requires forall j :: 0 <= j < idx ==> e[j].key < k
    requires forall j :: idx < j < |e| ==> k <= e[j].key
    ensures IsSlot(e, k, DescentIndexFixed(e, idx, k))
  {
  }
}
