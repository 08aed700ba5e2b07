/**
 `insert_nonfull` and `insert` (btree.rs lines 55-84 and 136-185) with the
 evidently intended behaviour: the corrected search, the corrected split,
 the corrected descent adjustment, and, at a branch, an overwrite of the
 value when the key is already held as a separator, instead of handing the
 key on to a leaf that does not hold it. The leaf step's update in place
 (btree.rs lines 148-149) is what this overwrite carries up to branches.

 On a well-formed tree whose capacity is at least 3 (`t >= 2`, or a degree
 whose `2t - 1` wraps) this insertion never panics, keeps the tree well
 formed, and adds exactly the new key.
 */
module CorrectedTree {
  import opened Outcomes
  import opened Nodes
  import opened Split
  import NodeInsert
  import Tree
  import opened Corrected
  import opened Ordering

  /** Overwrite the value of the element at `i`; the keys stay as they are. */
  function PutValue<V>(e: seq<Elt<V>>, i: nat, v: V): (r: seq<Elt<V>>)
    requires i < |e|
    ensures |r| == |e| && r[i] == Elt(e[i].key, v)
    ensures forall j :: 0 <= j < |e| ==> r[j].key == e[j].key
    ensures forall j :: 0 <= j < |e| && j != i ==> r[j] == e[j]
  {
    e[i := e[i].(value := v)]
  }

  /**
   The corrected `insert_nonfull(k, v, ub)`. A successful insertion keeps a
   node's kind and height.
   */
  function InsertNonfull<V>(n: Node<V>, k: int, v: V, ub: nat): (r: Result<Node<V>>)
    ensures r.Ok? ==> r.value.Leaf? == n.Leaf?
    ensures r.Ok? ==> Height(r.value) == Height(n)
    decreases Height(n)
  {
    var idx := LowerBound(n.elts, k);
    match n
    case Leaf(e) => Ok(Leaf(NodeInsert.LeafPut(e, idx, k, v)))
    case Branch(e, cs) =>
      if idx < |e| && e[idx].key == k then Ok(Branch(PutValue(e, idx, v), cs))
      else
        var s :- SplitChildReplacing(n, idx, ub);
        SplitChildReplacingHeight(n, idx, ub);
        if idx < |s.elts| && s.elts[idx].key == k then Ok(Branch(PutValue(s.elts, idx, v), s.children))
        else
          var j := DescentIndexFixed(s.elts, idx, k);
          if j >= |s.children| then Panic(ChildOutOfRange)
          else
            ForestHeightBound(s.children, j);
            var c :- InsertNonfull(s.children[j], k, v, ub);
            ForestHeightUpdate(s.children, j, c);
            Ok(Branch(s.elts, s.children[j := c]))
  }

  /** No element holds key `k`. */
  predicate NotStored<V>(e: seq<Elt<V>>, k: int) {
    forall j :: 0 <= j < |e| ==> e[j].key != k
  }

  /** On ascending keys, a slot that does not hold `k` means no element does. */
  lemma SlotNotStored<V>(e: seq<Elt<V>>, k: int, idx: nat)
    requires Ascending(e) && IsSlot(e, k, idx) && !(idx < |e| && e[idx].key == k)
    ensures NotStored(e, k)
  {
    forall j | idx < j < |e| ensures e[j].key != k {
      assert e[idx].key < e[j].key;
    }
  }

  /** Overwriting a value keeps search order. */
  lemma PutValueOrdered<V>(n: Node<V>, i: nat, v: V, lo: Bound, hi: Bound)
    requires Ordered(n, lo, hi) && n.Branch? && i < |n.elts|
    ensures Ordered(Branch(PutValue(n.elts, i, v), n.children), lo, hi)
  {
    var e := n.elts;
    var e' := PutValue(e, i, v);
    forall j | 0 <= j < |n.children|
      ensures Ordered(n.children[j], LoOf(e', lo, j), HiOf(e', hi, j))
    {
      assert LoOf(e', lo, j) == LoOf(e, lo, j);
      assert HiOf(e', hi, j) == HiOf(e, hi, j);
    }
  }

  /** Overwriting a value keeps the contents. */
  lemma PutValueContents<V>(e: seq<Elt<V>>, i: nat, v: V)
    requires i < |e|
    ensures Keys(PutValue(e, i, v)) == Keys(e)
  {
  }

  /**
   Putting a median that is not `k` at the insertion point `idx` of elements
   that do not hold `k` keeps smaller keys before `idx` and larger ones after.
   */
  lemma MedianAtSlot<V>(e: seq<Elt<V>>, idx: nat, m: Elt<V>, k: int)
    requires IsSlot(e, k, idx) && NotStored(e, k) && m.key != k
    ensures var e' := e[..idx] + [m] + e[idx..];
            && (forall x :: 0 <= x < idx ==> e'[x].key < k)
            && (forall x :: idx < x < |e'| ==> k < e'[x].key)
            && NotStored(e', k)
  {
    var e' := e[..idx] + [m] + e[idx..];
    assert forall x :: 0 <= x < idx ==> e'[x] == e[x];
    assert forall x :: idx < x < |e'| ==> e'[x] == e[x - 1];
  }

  /**
   The corrected adjustment picks a child whose separators admit `k`, given
   smaller keys before `idx`, larger ones after it, and none equal to `k`.
   */
  lemma DescentBounds<V>(e: seq<Elt<V>>, idx: nat, k: int, lo: Bound, hi: Bound)
    requires idx <= |e| && NotStored(e, k)
    requires forall x :: 0 <= x < idx ==> e[x].key < k
    requires forall x :: idx < x < |e| ==> k < e[x].key
    requires Above(k, lo) && Below(k, hi)
    ensures var j := DescentIndexFixed(e, idx, k);
            j <= |e| && Above(k, LoOf(e, lo, j)) && Below(k, HiOf(e, hi, j))
  {
    DescentIndexFixedSlot(e, idx, k);
  }

  /**
   Where the branch step descends: into a child that is not full and whose
   separators admit `k`. `s` is the parent after the split at the insertion
   point `idx`, which holds neither `k` nor, after a split, a median equal
   to `k`.
   */
  lemma DescentTarget<V>(n: Node<V>, k: int, ub: nat, lo: Bound, hi: Bound)
    requires n.Branch? && ub % 2 == 1
    requires Ascending(n.elts) && |n.children| == |n.elts| + 1
    requires forall j :: 0 <= j < |n.children| ==> |n.children[j].elts| <= ub
    requires Above(k, lo) && Below(k, hi)
    requires var idx := LowerBound(n.elts, k);
             !(idx < |n.elts| && n.elts[idx].key == k)
    requires SplitChildReplacing(n, LowerBound(n.elts, k), ub).Ok?
    requires var idx := LowerBound(n.elts, k);
             var s := SplitChildReplacing(n, idx, ub).value;
             !(idx < |s.elts| && s.elts[idx].key == k)
    ensures var idx := LowerBound(n.elts, k);
            var s := SplitChildReplacing(n, idx, ub).value;
            var j := DescentIndexFixed(s.elts, idx, k);
            && j < |s.children| && |s.children[j].elts| < ub
            && NotStored(s.elts, k)
            && Above(k, LoOf(s.elts, lo, j)) && Below(k, HiOf(s.elts, hi, j))
  {
    var e, cs := n.elts, n.children;
    var idx := LowerBound(e, k);
    var s := SplitChildReplacing(n, idx, ub).value;
    SlotNotStored(e, k, idx);
    if Splits(n, idx, ub) {
      var p := Carve(cs[idx]);
      assert s.elts == e[..idx] + [p.median] + e[idx..];
      assert s.children == cs[..idx] + [p.left, p.right] + cs[idx + 1..];
      MedianAtSlot(e, idx, p.median, k);
      DescentBounds(s.elts, idx, k, lo, hi);
      var j := DescentIndexFixed(s.elts, idx, k);
      assert s.children[j] == p.left || s.children[j] == p.right;
    } else {
      forall x | idx < x < |e| ensures k < e[x].key {
        assert e[idx].key < e[x].key;
      }
      DescentBounds(e, idx, k, lo, hi);
    }
  }

  /**
   The branch step when neither the search index nor the median holds `k`:
   the parent after the split, with the chosen child replaced by that
   child's own insertion result.
   */
  lemma DescentStep<V>(n: Node<V>, k: int, v: V, ub: nat)
    requires n.Branch?
    requires var idx := LowerBound(n.elts, k);
             !(idx < |n.elts| && n.elts[idx].key == k)
    requires SplitChildReplacing(n, LowerBound(n.elts, k), ub).Ok?
    requires var idx := LowerBound(n.elts, k);
             var s := SplitChildReplacing(n, idx, ub).value;
             !(idx < |s.elts| && s.elts[idx].key == k) && DescentIndexFixed(s.elts, idx, k) < |s.children|
    ensures var idx := LowerBound(n.elts, k);
            var s := SplitChildReplacing(n, idx, ub).value;
            var j := DescentIndexFixed(s.elts, idx, k);
            var r := InsertNonfull(s.children[j], k, v, ub);
            && Height(s.children[j]) < Height(n)
            && (r.Ok? ==> InsertNonfull(n, k, v, ub) == Ok(Branch(s.elts, s.children[j := r.value])))
  {
    var idx := LowerBound(n.elts, k);
    var s := SplitChildReplacing(n, idx, ub).value;
    SplitChildReplacingHeight(n, idx, ub);
    ForestHeightBound(s.children, DescentIndexFixed(s.elts, idx, k));
  }

  /**
   The child the branch step descends into meets everything the recursion
   needs: ordered within separators that admit `k`, sized, and not full.
   */
  lemma DescentChildReady<V>(n: Node<V>, k: int, ub: nat, lo: Bound, hi: Bound, least: nat)
    requires n.Branch? && ub % 2 == 1
    requires Ordered(n, lo, hi) && Sized(n, least, ub) && |n.elts| < ub
    requires Above(k, lo) && Below(k, hi)
    requires var idx := LowerBound(n.elts, k);
             !(idx < |n.elts| && n.elts[idx].key == k)
    ensures SplitChildReplacing(n, LowerBound(n.elts, k), ub).Ok?
    ensures var idx := LowerBound(n.elts, k);
            var s := SplitChildReplacing(n, idx, ub).value;
            && Ordered(s, lo, hi) && Sized(s, least, ub)
            && (!(idx < |s.elts| && s.elts[idx].key == k) ==>
                  var j := DescentIndexFixed(s.elts, idx, k);
                  var lo', hi' := LoOf(s.elts, lo, j), HiOf(s.elts, hi, j);
                  && j < |s.children| && NotStored(s.elts, k)
                  && Ordered(s.children[j], lo', hi') && Sized(s.children[j], ub / 2, ub)
                  && |s.children[j].elts| < ub && Above(k, lo') && Below(k, hi'))
  {
    var idx := LowerBound(n.elts, k);
    SplitChildReplacingOrdered(n, idx, ub, lo, hi);
    SplitChildReplacingSized(n, idx, ub, least);
    var s := SplitChildReplacing(n, idx, ub).value;
    if !(idx < |s.elts| && s.elts[idx].key == k) {
      DescentTarget(n, k, ub, lo, hi);
    }
  }

  /** When the search index holds `k`, a branch only has that element's value overwritten. */
  lemma SeparatorOverwrite<V>(n: Node<V>, k: int, v: V, ub: nat)
    requires n.Branch?
    requires var idx := LowerBound(n.elts, k);
             idx < |n.elts| && n.elts[idx].key == k
    ensures var idx := LowerBound(n.elts, k);
            var t := Branch(PutValue(n.elts, idx, v), n.children);
            InsertNonfull(n, k, v, ub) == Ok(t) && Bag(t) == Bag(n) && k in Bag(n)
  {
    var idx := LowerBound(n.elts, k);
    assert Keys(n.elts)[idx] == k;
    PutValueContents(n.elts, idx, v);
  }

  /** When the median brought up by the split is `k`, only its value is overwritten. */
  lemma MedianOverwrite<V>(n: Node<V>, k: int, v: V, ub: nat)
    requires n.Branch?
    requires var idx := LowerBound(n.elts, k);
             !(idx < |n.elts| && n.elts[idx].key == k)
    requires SplitChildReplacing(n, LowerBound(n.elts, k), ub).Ok?
    requires var idx := LowerBound(n.elts, k);
             var s := SplitChildReplacing(n, idx, ub).value;
             idx < |s.elts| && s.elts[idx].key == k
    ensures var idx := LowerBound(n.elts, k);
            var s := SplitChildReplacing(n, idx, ub).value;
            var t := Branch(PutValue(s.elts, idx, v), s.children);
            InsertNonfull(n, k, v, ub) == Ok(t) && Bag(t) == Bag(s) && k in Bag(s)
  {
    var idx := LowerBound(n.elts, k);
    var s := SplitChildReplacing(n, idx, ub).value;
    assert Keys(s.elts)[idx] == k;
    PutValueContents(s.elts, idx, v);
  }

  /** Replacing a child by one within the same separators keeps search order. */
  lemma ReplaceChildOrdered<V>(s: Node<V>, j: nat, c: Node<V>, lo: Bound, hi: Bound)
    requires Ordered(s, lo, hi) && s.Branch? && j < |s.children|
    requires Ordered(c, LoOf(s.elts, lo, j), HiOf(s.elts, hi, j))
    ensures Ordered(Branch(s.elts, s.children[j := c]), lo, hi)
  {
  }

  /** Replacing a child by one within the size bounds keeps the parent within them. */
  lemma ReplaceChildSized<V>(s: Node<V>, j: nat, c: Node<V>, least: nat, ub: nat)
    requires Sized(s, least, ub) && s.Branch? && j < |s.children|
    requires Sized(c, ub / 2, ub)
    ensures Sized(Branch(s.elts, s.children[j := c]), least, ub)
  {
  }

  /** The leaf step at the corrected index keeps a leaf ordered and sized. */
  lemma LeafPutValid<V>(e: seq<Elt<V>>, k: int, v: V, ub: nat, lo: Bound, hi: Bound, least: nat)
    requires Ascending(e) && InRange(e, lo, hi) && least <= |e| < ub
    requires Above(k, lo) && Below(k, hi)
    ensures var e' := NodeInsert.LeafPut(e, LowerBound(e, k), k, v);
            && Ascending(e') && InRange(e', lo, hi) && least <= |e'| <= ub
  {
    var idx := LowerBound(e, k);
    NodeInsert.LeafPutAscending(e, idx, k, v);
    var e' := NodeInsert.LeafPut(e, idx, k, v);
    if idx < |e| && e[idx].key == k {
      NodeInsert.LeafPutUpsert(e, idx, k, v);
    } else {
      NodeInsert.LeafPutAdds(e, idx, k, v);
      var at := if idx < |e| then idx else |e|;
      forall x | 0 <= x < |e'| ensures Above(e'[x].key, lo) && Below(e'[x].key, hi) {
        if x < at {
          assert e'[x] == e'[..at][x];
        } else if x > at {
          assert e'[x] == e'[at + 1..][x - at - 1];
        }
      }
    }
  }

  /**
   Insertion into an ordered, sized node with room, whose bounds admit `k`,
   never panics and keeps the node ordered and sized.
   */
  lemma {:induction false} InsertNonfullValid<V>(n: Node<V>, k: int, v: V, ub: nat,
                                                 lo: Bound, hi: Bound, least: nat)
    requires ub % 2 == 1
    requires Ordered(n, lo, hi) && Sized(n, least, ub) && |n.elts| < ub
    requires Above(k, lo) && Below(k, hi)
    ensures var r := InsertNonfull(n, k, v, ub);
            r.Ok? && Ordered(r.value, lo, hi) && Sized(r.value, least, ub)
    decreases Height(n)
  {
    var e := n.elts;
    var idx := LowerBound(e, k);
    if n.Leaf? {
      LeafPutValid(e, k, v, ub, lo, hi, least);
    } else if idx < |e| && e[idx].key == k {
      SeparatorOverwrite(n, k, v, ub);
      PutValueOrdered(n, idx, v, lo, hi);
    } else {
      DescentChildReady(n, k, ub, lo, hi, least);
      var s := SplitChildReplacing(n, idx, ub).value;
      if idx < |s.elts| && s.elts[idx].key == k {
        MedianOverwrite(n, k, v, ub);
        PutValueOrdered(s, idx, v, lo, hi);
      } else {
        DescentStep(n, k, v, ub);
        var j := DescentIndexFixed(s.elts, idx, k);
        var lo', hi' := LoOf(s.elts, lo, j), HiOf(s.elts, hi, j);
        InsertNonfullValid(s.children[j], k, v, ub, lo', hi', ub / 2);
        var c := InsertNonfull(s.children[j], k, v, ub).value;
        ReplaceChildOrdered(s, j, c, lo, hi);
        ReplaceChildSized(s, j, c, least, ub);
      }
    }
  }

  /** A key in a forest is in one of its trees; `j` is the first such tree. */
  lemma {:induction false} ForestBagMember<V>(cs: seq<Node<V>>, x: int) returns (j: nat)
    requires x in ForestBag(cs)
    ensures j < |cs| && x in Bag(cs[j])
    decreases |cs|
  {
    var last := |cs| - 1;
    var init := cs[..last];
    if x in ForestBag(init) {
      j := ForestBagMember(init, x);
      assert init[j] == cs[j];
    } else {
      j := last;
    }
  }

  /** Every key stored in an ordered subtree lies within its bounds. */
  lemma {:induction false} OrderedBagInRange<V>(n: Node<V>, lo: Bound, hi: Bound)
    requires Ordered(n, lo, hi)
    ensures forall x :: x in Bag(n) ==> Above(x, lo) && Below(x, hi)
    decreases n
  {
    var e := n.elts;
    forall x | x in Bag(n) ensures Above(x, lo) && Below(x, hi) {
      if x in multiset(Keys(e)) {
        var i :| 0 <= i < |e| && Keys(e)[i] == x;
      } else {
        var cs := n.children;
        var j := ForestBagMember(cs, x);
        OrderedBagInRange(cs[j], LoOf(e, lo, j), HiOf(e, hi, j));
        BoundsNarrow(e, lo, hi, j, x);
      }
    }
  }

  /** A key between the separators around child `j` is not in any other child. */
  lemma OtherChildLacks<V>(s: Node<V>, j: nat, j': nat, k: int, lo: Bound, hi: Bound)
    requires Ordered(s, lo, hi) && s.Branch? && j < |s.children| && j' < |s.children| && j' != j
    requires Above(k, LoOf(s.elts, lo, j)) && Below(k, HiOf(s.elts, hi, j))
    ensures k !in Bag(s.children[j'])
  {
    var e := s.elts;
    OrderedBagInRange(s.children[j'], LoOf(e, lo, j'), HiOf(e, hi, j'));
    if j' < j {
      assert HiOf(e, hi, j') == Sep(e[j'].key);
      assert e[j'].key <= e[j - 1].key;
    } else {
      assert LoOf(e, lo, j') == Sep(e[j' - 1].key);
      assert e[j].key <= e[j' - 1].key;
    }
  }

  /**
   In an ordered branch whose elements do not hold `k`, only the child
   whose separators admit `k` can hold it.
   */
  lemma OnlyChildHolds<V>(s: Node<V>, j: nat, k: int, lo: Bound, hi: Bound)
    requires Ordered(s, lo, hi) && s.Branch? && j < |s.children| && NotStored(s.elts, k)
    requires Above(k, LoOf(s.elts, lo, j)) && Below(k, HiOf(s.elts, hi, j))
    ensures k in Bag(s) <==> k in Bag(s.children[j])
  {
    var e, cs := s.elts, s.children;
    ForestBagAround(cs, j);
    assert k !in Keys(e);
    forall j' | 0 <= j' < |cs| && j' != j ensures k !in Bag(cs[j']) {
      OtherChildLacks(s, j, j', k, lo, hi);
    }
    if k in ForestBag(cs) {
      var j' := ForestBagMember(cs, k);
    }
  }

  /**
   Replacing the one child that can hold `k` by that child with `k` put in
   does the same to the parent.
   */
  lemma ReplaceChildExact<V>(s: Node<V>, j: nat, c: Node<V>, k: int)
    requires s.Branch? && j < |s.children|
    requires k in Bag(s) <==> k in Bag(s.children[j])
    requires Bag(c) == if k in Bag(s.children[j]) then Bag(s.children[j]) else Bag(s.children[j]) + multiset{k}
    ensures var t := Branch(s.elts, s.children[j := c]);
            Bag(t) == if k in Bag(s) then Bag(s) else Bag(s) + multiset{k}
  {
    var cs := s.children;
    var f, f' := ForestBag(cs), ForestBag(cs[j := c]);
    var b := Bag(cs[j]);
    ForestBagUpdate(cs, j, c);
    if k in b {
      Cancel(f', f, b);
    } else {
      assert f + Bag(c) == (f + multiset{k}) + b;
      Cancel(f', f + multiset{k}, b);
    }
  }

  /** A multiset added to both sides cancels. */
  lemma Cancel(a: multiset<int>, b: multiset<int>, c: multiset<int>)
    requires a + c == b + c
    ensures a == b
  {
    forall x ensures a[x] == b[x] {
      assert (a + c)[x] == (b + c)[x];
    }
  }

  /** The leaf step at the corrected index adds exactly `k`, or leaves the keys alone when `k` is there. */
  lemma LeafPutExact<V>(e: seq<Elt<V>>, k: int, v: V)
    requires Ascending(e)
    ensures var ks := multiset(Keys(NodeInsert.LeafPut(e, LowerBound(e, k), k, v)));
            ks == if k in Keys(e) then multiset(Keys(e)) else multiset(Keys(e)) + multiset{k}
  {
    var idx := LowerBound(e, k);
    if idx < |e| && e[idx].key == k {
      assert Keys(e)[idx] == k;
      NodeInsert.LeafPutUpsert(e, idx, k, v);
    } else {
      SlotNotStored(e, k, idx);
      assert k !in Keys(e);
      NodeInsert.LeafPutContents(e, idx, k, v);
    }
  }

  /**
   Insertion into an ordered, sized node with room, whose bounds admit `k`,
   adds exactly `k`, or leaves the keys alone when `k` is already stored.
   */
  lemma {:induction false} InsertNonfullContents<V>(n: Node<V>, k: int, v: V, ub: nat,
                                                    lo: Bound, hi: Bound, least: nat)
    requires ub % 2 == 1
    requires Ordered(n, lo, hi) && Sized(n, least, ub) && |n.elts| < ub
    requires Above(k, lo) && Below(k, hi)
    ensures var r := InsertNonfull(n, k, v, ub);
            r.Ok? && Bag(r.value) == if k in Bag(n) then Bag(n) else Bag(n) + multiset{k}
    decreases Height(n)
  {
    var e := n.elts;
    var idx := LowerBound(e, k);
    InsertNonfullValid(n, k, v, ub, lo, hi, least);
    if n.Leaf? {
      LeafPutExact(e, k, v);
    } else if idx < |e| && e[idx].key == k {
      SeparatorOverwrite(n, k, v, ub);
    } else {
      DescentChildReady(n, k, ub, lo, hi, least);
      SplitChildReplacingKeepsContents(n, idx, ub);
      var s := SplitChildReplacing(n, idx, ub).value;
      if idx < |s.elts| && s.elts[idx].key == k {
        MedianOverwrite(n, k, v, ub);
      } else {
        DescentStep(n, k, v, ub);
        var j := DescentIndexFixed(s.elts, idx, k);
        var lo', hi' := LoOf(s.elts, lo, j), HiOf(s.elts, hi, j);
        InsertNonfullContents(s.children[j], k, v, ub, lo', hi', ub / 2);
        OnlyChildHolds(s, j, k, lo, hi);
        ReplaceChildExact(s, j, InsertNonfull(s.children[j], k, v, ub).value, k);
      }
    }
  }

  /** Insertion keeps every leaf of the subtree at the same depth. */
  lemma {:induction false} InsertNonfullUniform<V>(n: Node<V>, k: int, v: V, ub: nat, h: nat)
    requires UniformHeight(n, h)
    ensures var r := InsertNonfull(n, k, v, ub);
            r.Ok? ==> UniformHeight(r.value, h)
    decreases Height(n)
  {
    if n.Branch? && InsertNonfull(n, k, v, ub).Ok? {
      var s, j, descends := BranchStepUniform(n, k, v, ub, h);
      if descends {
        InsertNonfullUniform(s.children[j], k, v, ub, h - 1);
        ReplaceChildUniform(s, j, InsertNonfull(s.children[j], k, v, ub).value, h);
      }
    }
  }

  /**
   A successful branch step either only overwrites a value, keeping uniform
   height, or rebuilds the split parent `s` (uniform like the original)
   around its child `j`'s own insertion result.
   */
  lemma BranchStepUniform<V>(n: Node<V>, k: int, v: V, ub: nat, h: nat)
    returns (s: Node<V>, j: nat, descends: bool)
    requires n.Branch? && UniformHeight(n, h) && InsertNonfull(n, k, v, ub).Ok?
    ensures !descends ==> UniformHeight(InsertNonfull(n, k, v, ub).value, h)
    ensures descends ==>
              && s.Branch? && UniformHeight(s, h) && j < |s.children|
              && Height(s.children[j]) < Height(n)
              && InsertNonfull(s.children[j], k, v, ub).Ok?
              && InsertNonfull(n, k, v, ub).value == Branch(s.elts, s.children[j := InsertNonfull(s.children[j], k, v, ub).value])
  {
    var idx := LowerBound(n.elts, k);
    s, j, descends := n, 0, false;
    if idx < |n.elts| && n.elts[idx].key == k {
      SeparatorOverwrite(n, k, v, ub);
    } else {
      BranchOkShape(n, k, v, ub);
      SplitChildReplacingUniform(n, idx, ub, h);
      s := SplitChildReplacing(n, idx, ub).value;
      if idx < |s.elts| && s.elts[idx].key == k {
        MedianOverwrite(n, k, v, ub);
      } else {
        j, descends := DescentIndexFixed(s.elts, idx, k), true;
        DescentStep(n, k, v, ub);
      }
    }
  }

  /** Replacing a child by one of the same uniform height keeps the parent's. */
  lemma ReplaceChildUniform<V>(s: Node<V>, j: nat, c: Node<V>, h: nat)
    requires UniformHeight(s, h) && s.Branch? && j < |s.children|
    requires UniformHeight(c, h - 1)
    ensures UniformHeight(Branch(s.elts, s.children[j := c]), h)
  {
  }

  /**
   A successful branch step that did not stop at the search index got
   through the split and, unless the median holds `k`, chose an existing
   child.
   */
  lemma BranchOkShape<V>(n: Node<V>, k: int, v: V, ub: nat)
    requires n.Branch? && InsertNonfull(n, k, v, ub).Ok?
    requires var idx := LowerBound(n.elts, k);
             !(idx < |n.elts| && n.elts[idx].key == k)
    ensures SplitChildReplacing(n, LowerBound(n.elts, k), ub).Ok?
    ensures var idx := LowerBound(n.elts, k);
            var s := SplitChildReplacing(n, idx, ub).value;
            !(idx < |s.elts| && s.elts[idx].key == k) ==> DescentIndexFixed(s.elts, idx, k) < |s.children|
  {
  }

  /**
   The node the corrected `insert` descends from: the root itself, or, when
   the root is full, a fresh root above it after the corrected root split.
   */
  function StartNode<V>(t: BTree<V>): (n: Node<V>)
    ensures Height(n) == Height(t.root) + (if |t.root.elts| >= Tree.Capacity(t.minDeg) then 1 else 0)
  {
    var ub := Tree.Capacity(t.minDeg);
    if |t.root.elts| >= ub then
      SplitChildReplacingHeight(Branch([], [t.root]), 0, ub);
      ForestHeightSingle(t.root);
      SplitChildReplacing(Branch([], [t.root]), 0, ub).value
    else t.root
  }

  /**
   The corrected `insert(k, v)`: the corrected insertion from the start
   node. The tree grows by one level exactly when the root was full.
   */
  function Insert<V>(t: BTree<V>, k: int, v: V): (r: Result<BTree<V>>)
    ensures r.Ok? ==> r.value.minDeg == t.minDeg
    ensures r.Ok? ==> Height(r.value.root) ==
                      Height(t.root) + (if |t.root.elts| >= Tree.Capacity(t.minDeg) then 1 else 0)
  {
    var root :- InsertNonfull(StartNode(t), k, v, Tree.Capacity(t.minDeg));
    Ok(BTree(root, t.minDeg))
  }

  /**
   A well-formed B-tree whose capacity is at least 3 (`t >= 2`, or a degree
   whose `2t - 1` wraps): in search order, every
   node within its size bounds with at least one element in the root, and
   every leaf at the same depth.
   */
  predicate Valid<V>(t: BTree<V>) {
    Tree.Capacity(t.minDeg) >= 3 && RootOk(t.root, Tree.Capacity(t.minDeg))
  }

  /** A well-formed root for capacity `ub`. */
  predicate RootOk<V>(n: Node<V>, ub: nat) {
    Ordered(n, Open, Open) && Sized(n, 1, ub) && UniformHeight(n, Height(n))
  }

  /** `new` gives a well-formed tree whenever the capacity is at least 3. */
  lemma NewValid<V>(k: int, v: V, md: Word)
    requires Tree.Capacity(md) >= 3
    ensures Valid(Tree.New(k, v, md))
  {
  }

  /**
   Splitting a full root of a well-formed tree under a fresh root gives an
   ordered, sized, balanced root of one element, with the same contents.
   */
  lemma GrowRootReady<V>(root: Node<V>, ub: nat)
    requires ub % 2 == 1 && ub >= 3
    requires RootOk(root, ub) && |root.elts| >= ub
    ensures SplitChildReplacing(Branch([], [root]), 0, ub).Ok?
    ensures var g := SplitChildReplacing(Branch([], [root]), 0, ub).value;
            && Ordered(g, Open, Open) && Sized(g, 1, ub) && |g.elts| == 1
            && Bag(g) == Bag(root)
  {
    var b := Branch([], [root]);
    assert LoOf(b.elts, Open, 0) == Open && HiOf(b.elts, Open, 0) == Open;
    assert Ordered(b, Open, Open);
    assert Sized(b, 0, ub);
    SplitChildReplacingOrdered(b, 0, ub, Open, Open);
    SplitChildReplacingSized(b, 0, ub, 0);
    SplitChildReplacingKeepsContents(b, 0, ub);
    ForestBagSingle(root);
  }

  /** The start node of a well-formed tree is well formed, has room, and holds the tree's keys. */
  lemma StartNodeReady<V>(t: BTree<V>)
    requires Valid(t)
    ensures var n := StartNode(t);
            && RootOk(n, Tree.Capacity(t.minDeg)) && |n.elts| < Tree.Capacity(t.minDeg)
            && Bag(n) == Bag(t.root)
  {
    var ub := Tree.Capacity(t.minDeg);
    if |t.root.elts| >= ub {
      GrowRootReady(t.root, ub);
      var b := Branch([], [t.root]);
      assert UniformHeight(b, Height(t.root) + 1);
      SplitChildReplacingUniform(b, 0, ub, Height(t.root) + 1);
    }
  }

  /** Insertion from a well-formed root with room keeps it well formed and adds exactly `k`. */
  lemma RootInsertValid<V>(n: Node<V>, k: int, v: V, ub: nat)
    requires ub % 2 == 1 && ub >= 3
    requires RootOk(n, ub) && |n.elts| < ub
    ensures var r := InsertNonfull(n, k, v, ub);
            && r.Ok? && RootOk(r.value, ub)
            && Bag(r.value) == if k in Bag(n) then Bag(n) else Bag(n) + multiset{k}
  {
    InsertNonfullValid(n, k, v, ub, Open, Open, 1);
    InsertNonfullContents(n, k, v, ub, Open, Open, 1);
    InsertNonfullUniform(n, k, v, ub, Height(n));
  }

  /**
   On a well-formed tree the corrected insertion never panics, keeps the
   tree well formed, and adds exactly `k`, or only overwrites a value when
   `k` is already stored.
   */
  lemma InsertValid<V>(t: BTree<V>, k: int, v: V)
    requires Valid(t)
    ensures var r := Insert(t, k, v);
            && r.Ok? && Valid(r.value)
            && Bag(r.value.root) == if k in Bag(t.root) then Bag(t.root) else Bag(t.root) + multiset{k}
  {
    StartNodeReady(t);
    RootInsertValid(StartNode(t), k, v, Tree.Capacity(t.minDeg));
  }

  /** After one corrected insertion the tree holds exactly its old keys and `k`. */
  lemma InsertKeySet<V>(t: BTree<V>, k: int, v: V)
    requires Valid(t)
    ensures Insert(t, k, v).Ok?
    ensures forall x :: x in Bag(Insert(t, k, v).value.root) <==> x in Bag(t.root) || x == k
  {
    InsertValid(t, k, v);
  }

  /** A corrected insertion into a tree that stores each key at most once keeps it so. */
  lemma InsertKeepsKeysUnique<V>(t: BTree<V>, k: int, v: V)
    requires Valid(t) && forall x :: Bag(t.root)[x] <= 1
    ensures Insert(t, k, v).Ok?
    ensures forall x :: Bag(Insert(t, k, v).value.root)[x] <= 1
  {
    InsertValid(t, k, v);
  }

  /** Insert each element's key and value in turn, stopping at the first panic. */
  function InsertAll<V>(t: BTree<V>, es: seq<Elt<V>>): Result<BTree<V>>
    decreases |es|
  {
    if |es| == 0 then Ok(t)
    else
      var t' :- Insert(t, es[0].key, es[0].value);
      InsertAll(t', es[1..])
  }

  /** Any sequence of corrected insertions into a well-formed tree succeeds and keeps it well formed. */
  lemma {:induction false} InsertAllValid<V>(t: BTree<V>, es: seq<Elt<V>>)
    requires Valid(t)
    ensures InsertAll(t, es).Ok? && Valid(InsertAll(t, es).value)
    decreases |es|
  {
    if |es| > 0 {
      InsertValid(t, es[0].key, es[0].value);
      InsertAllValid(Insert(t, es[0].key, es[0].value).value, es[1..]);
    }
  }

  /** A key is among the keys of a run exactly when it is the first one's or among the rest's. */
  lemma KeysFirst<V>(es: seq<Elt<V>>)
    requires |es| > 0
    ensures forall x :: x in Keys(es) <==> x == es[0].key || x in Keys(es[1..])
  {
    assert Keys(es) == [es[0].key] + Keys(es[1..]);
  }

  /**
   A sequence of corrected insertions into a well-formed tree ends holding
   exactly the old keys and the inserted ones.
   */
  lemma {:induction false} InsertAllKeys<V>(t: BTree<V>, es: seq<Elt<V>>)
    requires Valid(t)
    ensures InsertAll(t, es).Ok?
    ensures forall x :: x in Bag(InsertAll(t, es).value.root) <==> x in Bag(t.root) || x in Keys(es)
    decreases |es|
  {
    InsertAllValid(t, es);
    if |es| > 0 {
      InsertValid(t, es[0].key, es[0].value);
      InsertKeySet(t, es[0].key, es[0].value);
      var t' := Insert(t, es[0].key, es[0].value).value;
      InsertAllKeys(t', es[1..]);
      KeysFirst(es);
    }
  }

  /**
   The run that makes the as-written insertion panic (`new(1)` with `t = 2`,
   then 2, 3, 5, 6, 4, 7, 8, 9) goes through with the corrected one and
   leaves a well-formed tree holding exactly the keys 1 to 9.
   */
  lemma CorrectedRunSucceeds(t: BTree<int>, es: seq<Elt<int>>)
    requires t == Tree.New(1, 1, 2)
    requires es == [Elt(2, 2), Elt(3, 3), Elt(5, 5), Elt(6, 6), Elt(4, 4), Elt(7, 7), Elt(8, 8), Elt(9, 9)]
    ensures var r := InsertAll(t, es);
            && r.Ok? && Valid(r.value)
            && forall x :: x in Bag(r.value.root) <==> 1 <= x <= 9
  {
    assert Tree.Capacity(2) == 3;
    NewValid(1, 1, 2);
    InsertAllValid(t, es);
    InsertAllKeys(t, es);
    RunKeys(es);
  }

  /** The keys of the run are 2 to 9. */
  lemma RunKeys(es: seq<Elt<int>>)
    requires es == [Elt(2, 2), Elt(3, 3), Elt(5, 5), Elt(6, 6), Elt(4, 4), Elt(7, 7), Elt(8, 8), Elt(9, 9)]
    ensures forall x :: x in Keys(es) <==> 2 <= x <= 9
  {
    assert Keys(es) == [2, 3, 5, 6, 4, 7, 8, 9];
  }

  /**
   A key held as a separator has its value overwritten in place, where the
   as-written insertion stores it a second time in a leaf.
   */
  lemma SeparatorKeyOverwritten()
    ensures var n := Branch([Elt(2, 2)], [Leaf([Elt(1, 1)]), Leaf([Elt(3, 3), Elt(5, 5)])]);
            Insert(BTree(n, 2), 2, 20) == Ok(BTree(Branch([Elt(2, 20)], n.children), 2))
  {
    var n := Branch([Elt(2, 2)], [Leaf([Elt(1, 1)]), Leaf([Elt(3, 3), Elt(5, 5)])]);
    assert Tree.Capacity(2) == 3;
    assert LowerBound(n.elts, 2) == 0;
    assert PutValue(n.elts, 0, 20) == [Elt(2, 20)];
  }
}
