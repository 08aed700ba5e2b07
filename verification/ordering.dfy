/**
 What a well-formed B-tree is, stated independently of any operation: keys
 ascend inside each node and every subtree lies strictly between the two
 separators around it (search order); every node holds between `t - 1` and
 `2t - 1` elements, the root at least one (size); and every branch has one
 child more than elements.

 The lemmas here show that the corrected split keeps a node well formed;
 the as-written split cannot, since it leaves two more children than
 elements.
 */
module Ordering {
  import opened Nodes
  import opened Split
  import opened NodeInsert
  import opened Corrected

  /** A bound on the keys of a subtree: none, or a separator key. */
  datatype Bound = Open | Sep(key: int)

  /** `x` lies strictly above the lower bound `lo`. */
  predicate Above(x: int, lo: Bound) {
    lo.Open? || lo.key < x
  }

  /** `x` lies strictly below the upper bound `hi`. */
  predicate Below(x: int, hi: Bound) {
    hi.Open? || x < hi.key
  }

  /** The lower bound of child `j`: the separator before it, or the node's own bound. */
  function LoOf<V>(e: seq<Elt<V>>, lo: Bound, j: nat): Bound
    requires j <= |e|
  {
    if j == 0 then lo else Sep(e[j - 1].key)
  }

  /** The upper bound of child `j`: the separator after it, or the node's own bound. */
  function HiOf<V>(e: seq<Elt<V>>, hi: Bound, j: nat): Bound
    requires j <= |e|
  {
    if j == |e| then hi else Sep(e[j].key)
  }

  predicate InRange<V>(e: seq<Elt<V>>, lo: Bound, hi: Bound) {
    forall j :: 0 <= j < |e| ==> Above(e[j].key, lo) && Below(e[j].key, hi)
  }

  /**
   Search order: ascending keys inside `(lo, hi)`, and for a branch one
   child more than elements, child `j` lying between the separators around it.
   */
  predicate Ordered<V>(n: Node<V>, lo: Bound, hi: Bound) {
    && Ascending(n.elts)
    && InRange(n.elts, lo, hi)
    && (n.Branch? ==>
          && |n.children| == |n.elts| + 1
          && forall j {:trigger Ordered(n.children[j], LoOf(n.elts, lo, j), HiOf(n.elts, hi, j))} ::
               0 <= j < |n.children| ==> Ordered(n.children[j], LoOf(n.elts, lo, j), HiOf(n.elts, hi, j)))
  }

  /**
   Size: `n` holds from `least` to `ub` elements and every node below it
   from `ub / 2` (that is `t - 1` for `ub = 2t - 1`) to `ub`.
   */
  predicate Sized<V>(n: Node<V>, least: nat, ub: nat) {
    && least <= |n.elts| <= ub
    && (n.Branch? ==> forall j :: 0 <= j < |n.children| ==> Sized(n.children[j], ub / 2, ub))
  }

  /** A key within a separator's bounds is within the node's own bounds. */
  lemma BoundsNarrow<V>(e: seq<Elt<V>>, lo: Bound, hi: Bound, j: nat, x: int)
    requires InRange(e, lo, hi) && j <= |e|
    requires Above(x, LoOf(e, lo, j)) && Below(x, HiOf(e, hi, j))
    ensures Above(x, lo) && Below(x, hi)
  {
    if j > 0 {
      assert Above(e[j - 1].key, lo);
    }
    if j < |e| {
      assert Below(e[j].key, hi);
    }
  }

  /** The elements of `c` from `a` up to `b`, with the children between them. */
  function Window<V>(c: Node<V>, a: nat, b: nat): Node<V>
    requires a <= b <= |c.elts|
    requires c.Branch? ==> |c.children| == |c.elts| + 1
  {
    match c
    case Leaf(e) => Leaf(e[a..b])
    case Branch(e, g) => Branch(e[a..b], g[a..b + 1])
  }

  /** A window of an ordered node is ordered within the separators around it. */
  lemma WindowOrdered<V>(c: Node<V>, lo: Bound, hi: Bound, a: nat, b: nat)
    requires Ordered(c, lo, hi) && a <= b <= |c.elts|
    ensures Ordered(Window(c, a, b), LoOf(c.elts, lo, a), HiOf(c.elts, hi, b))
  {
    var e := c.elts;
    var w := e[a..b];
    var wlo, whi := LoOf(e, lo, a), HiOf(e, hi, b);
    forall x | 0 <= x < |w| ensures Above(w[x].key, wlo) && Below(w[x].key, whi) {
      assert w[x] == e[a + x];
      if a > 0 {
        assert e[a - 1].key < e[a + x].key;
      }
      if b < |e| {
        assert e[a + x].key < e[b].key;
      }
    }
    if c.Branch? {
      var g := c.children[a..b + 1];
      forall j | 0 <= j < |g| ensures Ordered(g[j], LoOf(w, wlo, j), HiOf(w, whi, j)) {
        assert g[j] == c.children[a + j];
        assert LoOf(w, wlo, j) == LoOf(e, lo, a + j);
        assert HiOf(w, whi, j) == HiOf(e, hi, a + j);
      }
    }
  }

  /** The halves of a node with an odd number of elements are the windows on either side of the middle. */
  lemma CarveWindows<V>(c: Node<V>)
    requires |c.elts| % 2 == 1
    requires c.Branch? ==> |c.children| == |c.elts| + 1
    ensures var mid := |c.elts| / 2;
            && Carve(c).median == c.elts[mid]
            && Carve(c).left == Window(c, 0, mid)
            && Carve(c).right == Window(c, mid + 1, |c.elts|)
  {
    var e := c.elts;
    var mid := |e| / 2;
    assert e[0..mid] == e[..mid];
    assert e[mid + 1..|e|] == e[mid + 1..];
    if c.Branch? {
      var g := c.children;
      assert |g| - |g| / 2 == mid + 1;
      assert g[0..mid + 1] == g[..mid + 1];
      assert g[mid + 1..|e| + 1] == g[mid + 1..];
    }
  }

  /** The left half of a carved ordered node lies below the median. */
  lemma CarveLeftOrdered<V>(c: Node<V>, lo: Bound, hi: Bound)
    requires Ordered(c, lo, hi) && |c.elts| % 2 == 1
    ensures Ordered(Carve(c).left, lo, Sep(Carve(c).median.key))
  {
    var mid := |c.elts| / 2;
    CarveWindows(c);
    WindowOrdered(c, lo, hi, 0, mid);
    assert LoOf(c.elts, lo, 0) == lo && HiOf(c.elts, hi, mid) == Sep(c.elts[mid].key);
    OrderedSame(Window(c, 0, mid), Carve(c).left, lo, Sep(c.elts[mid].key));
  }

  /** The right half of a carved ordered node lies above the median. */
  lemma CarveRightOrdered<V>(c: Node<V>, lo: Bound, hi: Bound)
    requires Ordered(c, lo, hi) && |c.elts| % 2 == 1
    ensures Ordered(Carve(c).right, Sep(Carve(c).median.key), hi)
  {
    var e := c.elts;
    var mid := |e| / 2;
    CarveWindows(c);
    WindowOrdered(c, lo, hi, mid + 1, |e|);
    assert LoOf(e, lo, mid + 1) == Sep(e[mid].key) && HiOf(e, hi, |e|) == hi;
    OrderedSame(Window(c, mid + 1, |e|), Carve(c).right, Sep(e[mid].key), hi);
  }

  /**
   Carving an ordered node with an odd number of elements gives two ordered
   halves on either side of the median, which itself lies within the node's
   bounds.
   */
  lemma CarveOrdered<V>(c: Node<V>, lo: Bound, hi: Bound)
    requires Ordered(c, lo, hi) && |c.elts| % 2 == 1
    ensures var p := Carve(c);
            var m := Sep(p.median.key);
            && Above(p.median.key, lo) && Below(p.median.key, hi)
            && Ordered(p.left, lo, m) && Ordered(p.right, m, hi)
  {
    CarveWindows(c);
    CarveLeftOrdered(c, lo, hi);
    CarveRightOrdered(c, lo, hi);
  }

  lemma OrderedSame<V>(x: Node<V>, y: Node<V>, lo: Bound, hi: Bound)
    requires x == y && Ordered(x, lo, hi)
    ensures Ordered(y, lo, hi)
  {
  }

  /** A key between the separators around slot `i` can enter the elements there. */
  lemma SeparatorFits<V>(e: seq<Elt<V>>, i: nat, m: Elt<V>, lo: Bound, hi: Bound)
    requires Ascending(e) && InRange(e, lo, hi) && i <= |e|
    requires Above(m.key, LoOf(e, lo, i)) && Below(m.key, HiOf(e, hi, i))
    ensures Ascending(e[..i] + [m] + e[i..]) && InRange(e[..i] + [m] + e[i..], lo, hi)
  {
    BoundsNarrow(e, lo, hi, i, m.key);
    forall j | 0 <= j < i ensures e[j].key < m.key {
      assert e[j].key <= e[i - 1].key;
    }
    forall j | i <= j < |e| ensures m.key < e[j].key {
      assert e[i].key <= e[j].key;
    }
    InsertAtAscending(e, i, m);
    var e' := e[..i] + [m] + e[i..];
    assert forall j :: 0 <= j < i ==> e'[j] == e[j];
    assert forall j :: i < j < |e'| ==> e'[j] == e[j - 1];
  }

  /**
   Putting separator `m` into an ordered parent at `i`, and replacing child
   `i` by `l` below `m` and `r` above it, keeps the parent ordered.
   */
  lemma InsertSeparatorOrdered<V>(n: Node<V>, i: nat, m: Elt<V>, l: Node<V>, r: Node<V>,
                                  lo: Bound, hi: Bound)
    requires Ordered(n, lo, hi) && n.Branch? && i <= |n.elts|
    requires Above(m.key, LoOf(n.elts, lo, i)) && Below(m.key, HiOf(n.elts, hi, i))
    requires Ordered(l, LoOf(n.elts, lo, i), Sep(m.key)) && Ordered(r, Sep(m.key), HiOf(n.elts, hi, i))
    ensures Ordered(Branch(n.elts[..i] + [m] + n.elts[i..], n.children[..i] + [l, r] + n.children[i + 1..]),
                    lo, hi)
  {
    var e, cs := n.elts, n.children;
    var e' := e[..i] + [m] + e[i..];
    var cs' := cs[..i] + [l, r] + cs[i + 1..];
    SeparatorFits(e, i, m, lo, hi);
    forall j | 0 <= j < |cs'| ensures Ordered(cs'[j], LoOf(e', lo, j), HiOf(e', hi, j)) {
      SeparatorBounds(e, i, m, lo, hi, j);
      if j < i {
        assert cs'[j] == cs[j];
      } else if j > i + 1 {
        assert cs'[j] == cs[j - 1];
      }
    }
  }

  /** The separators around each child once `m` has entered the elements at `i`. */
  lemma SeparatorBounds<V>(e: seq<Elt<V>>, i: nat, m: Elt<V>, lo: Bound, hi: Bound, j: nat)
    requires i <= |e| && j <= |e| + 1
    ensures var e' := e[..i] + [m] + e[i..];
            && (j < i ==> LoOf(e', lo, j) == LoOf(e, lo, j) && HiOf(e', hi, j) == HiOf(e, hi, j))
            && (j == i ==> LoOf(e', lo, j) == LoOf(e, lo, i) && HiOf(e', hi, j) == Sep(m.key))
            && (j == i + 1 ==> LoOf(e', lo, j) == Sep(m.key) && HiOf(e', hi, j) == HiOf(e, hi, i))
            && (j > i + 1 ==> LoOf(e', lo, j) == LoOf(e, lo, j - 1) && HiOf(e', hi, j) == HiOf(e, hi, j - 1))
  {
    var e' := e[..i] + [m] + e[i..];
    assert forall x :: 0 <= x < i ==> e'[x] == e[x];
    assert forall x :: i < x < |e'| ==> e'[x] == e[x - 1];
  }

  /**
   The corrected split keeps a parent in search order: the median enters
   between the separators around the full child, and the two halves take
   that child's place on either side of it.
   */
  lemma SplitChildReplacingOrdered<V>(n: Node<V>, i: nat, ub: nat, lo: Bound, hi: Bound)
    requires Ordered(n, lo, hi) && n.Branch? && i < |n.children|
    requires |n.children[i].elts| <= ub && ub % 2 == 1
    ensures SplitChildReplacing(n, i, ub).Ok?
    ensures Ordered(SplitChildReplacing(n, i, ub).value, lo, hi)
  {
    if Splits(n, i, ub) {
      var c := n.children[i];
      CarveOrdered(c, LoOf(n.elts, lo, i), HiOf(n.elts, hi, i));
      var p := Carve(c);
      InsertSeparatorOrdered(n, i, p.median, p.left, p.right, lo, hi);
    }
  }

  /**
   Splitting a full child of a parent that still has room keeps every node
   within its size bounds: each half gets `t - 1` of the child's `2t - 1`
   elements and the parent gains one.
   */
  lemma SplitChildReplacingSized<V>(n: Node<V>, i: nat, ub: nat, least: nat)
    requires Sized(n, least, ub) && |n.elts| < ub && ub % 2 == 1
    ensures SplitChildReplacing(n, i, ub).Ok? ==> Sized(SplitChildReplacing(n, i, ub).value, least, ub)
  {
    var r := SplitChildReplacing(n, i, ub);
    if r.Ok? && Splits(n, i, ub) {
      var cs := n.children;
      var c := cs[i];
      var p := Carve(c);
      var s := r.value;
      assert s.children == cs[..i] + [p.left, p.right] + cs[i + 1..];
      assert |c.elts| == ub;
      if c.Branch? {
        forall j | 0 <= j < |p.left.children| ensures Sized(p.left.children[j], ub / 2, ub) {
          assert p.left.children[j] == c.children[j];
        }
        forall j | 0 <= j < |p.right.children| ensures Sized(p.right.children[j], ub / 2, ub) {
          assert p.right.children[j] == c.children[|p.left.children| + j];
        }
      }
      assert Sized(p.left, ub / 2, ub) && Sized(p.right, ub / 2, ub);
      forall j | 0 <= j < |s.children| ensures Sized(s.children[j], ub / 2, ub) {
        if j < i {
          assert s.children[j] == cs[j];
        } else if j >= i + 2 {
          assert s.children[j] == cs[j - 1];
        }
      }
    }
  }
}
