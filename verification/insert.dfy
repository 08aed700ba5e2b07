/**
 `Node::insert_nonfull` (btree.rs lines 136-185), as written.

 At a leaf the key is written at the index `bsearch_node` returns: the
 value is overwritten when that index already holds the key, otherwise a
 new element is inserted there (or pushed when the index is past the end).
 At a branch the child at the search index is split if it holds `ub` or
 more elements, the index is adjusted, and the recursion enters that child.
 The adjustment is reversed: it steps right when the element at the index
 is GREATER than the key.
 */
module NodeInsert {
  import opened Outcomes
  import opened Nodes
  import opened Search
  import opened Split

  /** The leaf step at search index `idx`: overwrite in place, push, or insert. */
  function LeafPut<V>(e: seq<Elt<V>>, idx: nat, k: int, v: V): (r: seq<Elt<V>>)
    ensures |r| == if idx < |e| && e[idx].key == k then |e| else |e| + 1
  {
    if |e| <= idx then e + [Elt(k, v)]
    else if e[idx].key == k then e[idx := e[idx].(value := v)]
    else e[..idx] + [Elt(k, v)] + e[idx..]
  }

  /**
   The leaf step stores `(k, v)` and keeps every element under another key,
   whatever the index the search hands it.
   */
  lemma LeafPutKeeps<V>(e: seq<Elt<V>>, idx: nat, k: int, v: V)
    ensures Elt(k, v) in LeafPut(e, idx, k, v)
    ensures forall j :: 0 <= j < |e| && e[j].key != k ==> e[j] in LeafPut(e, idx, k, v)
  {
    var r := LeafPut(e, idx, k, v);
    if idx < |e| && e[idx].key == k {
      assert r[idx] == Elt(k, v);
      assert forall j :: 0 <= j < |e| && j != idx ==> r[j] == e[j];
    }
  }

  /** The child the branch step descends into, after the (possible) split at `idx`. */
  function DescentIndex<V>(e: seq<Elt<V>>, idx: nat, k: int): (j: nat)
    ensures idx <= j <= idx + 1
    ensures idx <= |e| ==> j <= |e|
  {
    if idx < |e| && e[idx].key > k then idx + 1 else idx
  }

  /**
   `insert_nonfull(k, v, ub)` on `n`. A leaf panics only when it is empty
   (the search reads `elts[0]`), and a successful insertion never changes a
   node's kind or its height.
   */
  function InsertNonfull<V>(n: Node<V>, k: int, v: V, ub: nat): (r: Result<Node<V>>)
    ensures n.Leaf? ==> (r.Panic? <==> |n.elts| == 0)
    ensures r.Ok? ==> r.value.Leaf? == n.Leaf?
    ensures r.Ok? ==> Height(r.value) == Height(n)
    decreases Height(n)
  {
    var idx :- BSearch(n.elts, k);
    match n
    case Leaf(e) => Ok(Leaf(LeafPut(e, idx, k, v)))
    case Branch(_, _) =>
      var s :- SplitChild(n, idx, ub);
      var j := DescentIndex(s.elts, idx, k);
      if j >= |s.children| then Panic(ChildOutOfRange)
      else
        SplitChildHeight(n, idx, ub);
        ForestHeightBound(s.children, j);
        var c :- InsertNonfull(s.children[j], k, v, ub);
        ForestHeightUpdate(s.children, j, c);
        Ok(Branch(s.elts, s.children[j := c]))
  }

  /** When the search index already holds `k`, only that element's value changes. */
  lemma LeafPutUpsert<V>(e: seq<Elt<V>>, idx: nat, k: int, v: V)
    requires idx < |e| && e[idx].key == k
    ensures var r := LeafPut(e, idx, k, v);
            && |r| == |e| && Keys(r) == Keys(e)
            && r[idx] == Elt(k, v)
            && forall j :: 0 <= j < |e| && j != idx ==> r[j] == e[j]
  {
  }

  /**
   Otherwise a new element appears at `idx` (at the end when `idx` is past
   it) and the old elements keep their order around it.
   */
  lemma LeafPutAdds<V>(e: seq<Elt<V>>, idx: nat, k: int, v: V)
    requires !(idx < |e| && e[idx].key == k)
    ensures var r := LeafPut(e, idx, k, v);
            var at := if idx < |e| then idx else |e|;
            && |r| == |e| + 1
            && r[at] == Elt(k, v)
            && r[..at] == e[..at]
            && r[at + 1..] == e[at..]
  {
  }

  /** The leaf step adds exactly `k`, or leaves the keys alone when `k` is already there. */
  lemma LeafPutContents<V>(e: seq<Elt<V>>, idx: nat, k: int, v: V)
    ensures var ks := multiset(Keys(LeafPut(e, idx, k, v)));
            || ks == multiset(Keys(e)) + multiset{k}
            || (k in multiset(Keys(e)) && ks == multiset(Keys(e)))
  {
    var r := LeafPut(e, idx, k, v);
    if idx < |e| && e[idx].key == k {
      LeafPutUpsert(e, idx, k, v);
      assert Keys(e)[idx] == k;
    } else if |e| <= idx {
      KeysConcat(e, [Elt(k, v)]);
      assert Keys([Elt(k, v)]) == [k];
    } else {
      KeysInsertAt(e, idx, Elt(k, v));
    }
  }

  /**
   Putting `x` at `at` into ascending elements gives ascending elements
   exactly when `at` is where `x.key` belongs and `x.key` is not already
   there.
   */
  lemma InsertAtAscending<V>(e: seq<Elt<V>>, at: nat, x: Elt<V>)
    requires at <= |e| && Ascending(e)
    ensures Ascending(e[..at] + [x] + e[at..]) <==>
            IsSlot(e, x.key, at) && (at < |e| ==> e[at].key != x.key)
  {
    var r := e[..at] + [x] + e[at..];
    assert forall j :: 0 <= j < at ==> r[j] == e[j];
    assert forall j :: at < j < |r| ==> r[j] == e[j - 1];
    if Ascending(r) {
      forall j | 0 <= j < at ensures e[j].key < x.key {
        assert r[j].key < r[at].key;
      }
      forall j | at <= j < |e| ensures x.key < e[j].key {
        assert r[at].key < r[j + 1].key;
      }
    }
    if IsSlot(e, x.key, at) && (at < |e| ==> e[at].key != x.key) {
      forall a, b | 0 <= a < b < |r| ensures r[a].key < r[b].key {
        if a < at && b > at {
          assert r[a].key < x.key <= e[b - 1].key;
        } else if a > at {
          assert e[a - 1].key < e[b - 1].key;
        } else if b < at {
          assert e[a].key < e[b].key;
        } else if a == at {
          assert x.key <= e[at].key <= e[b - 1].key;
        }
      }
    }
  }

  /**
   On ascending keys the leaf step keeps them ascending exactly when `idx`
   is where `k` belongs; a wrong index yields an out-of-order leaf.
   */
  lemma LeafPutAscending<V>(e: seq<Elt<V>>, idx: nat, k: int, v: V)
    requires idx <= |e|
    requires Ascending(e)
    ensures Ascending(LeafPut(e, idx, k, v)) <==> IsSlot(e, k, idx)
  {
    if idx < |e| && e[idx].key == k {
      forall j | 0 <= j < idx ensures e[j].key < k {
        assert e[j].key < e[idx].key;
      }
      forall j | idx < j < |e| ensures k <= e[j].key {
        assert e[idx].key < e[j].key;
      }
    } else {
      InsertAtAscending(e, idx, Elt(k, v));
      if idx == |e| {
        assert e[..idx] + [Elt(k, v)] + e[idx..] == e + [Elt(k, v)];
      }
    }
  }

  /**
   The reversed adjustment: whenever the element at the search index is
   not `k` itself, the chosen child lies on the wrong side of that element,
   so its range cannot hold `k`.
   */
  lemma DescentIndexReversed<V>(e: seq<Elt<V>>, idx: nat, k: int)
    requires idx < |e| && e[idx].key != k
    ensures !IsSlot(e, k, DescentIndex(e, idx, k))
  {
  }

  /**
   On a leaf with ascending keys the insertion succeeds and keeps the keys
   ascending exactly when the search returned the index where `k` belongs.
   */
  lemma InsertNonfullLeafOrder<V>(e: seq<Elt<V>>, k: int, v: V, ub: nat)
    requires |e| > 0 && Ascending(e)
    ensures InsertNonfull(Leaf(e), k, v, ub).Ok?
    ensures Ascending(InsertNonfull(Leaf(e), k, v, ub).value.elts) <==>
            IsSlot(e, k, BSearch(e, k).value)
  {
    LeafPutAscending(e, BSearch(e, k).value, k, v);
  }

  /**
   How the branch step rebuilds a node: the split parent with the chosen
   child replaced by the child's own insertion result.
   */
  lemma InsertNonfullBranchStep<V>(n: Node<V>, k: int, v: V, ub: nat)
    requires n.Branch? && InsertNonfull(n, k, v, ub).Ok?
    ensures var idx := BSearch(n.elts, k).value;
            var s := SplitChild(n, idx, ub).value;
            var j := DescentIndex(s.elts, idx, k);
            && SplitChild(n, idx, ub).Ok?
            && j < |s.children|
            && Height(s.children[j]) < Height(n)
            && InsertNonfull(s.children[j], k, v, ub).Ok?
            && InsertNonfull(n, k, v, ub).value ==
               Branch(s.elts, s.children[j := InsertNonfull(s.children[j], k, v, ub).value])
  {
    var idx := BSearch(n.elts, k).value;
    var s := SplitChild(n, idx, ub).value;
    var j := DescentIndex(s.elts, idx, k);
    SplitChildHeight(n, idx, ub);
    ForestHeightBound(s.children, j);
  }

  /** Replacing one child by one that gained `k` (or only had a value overwritten) does the same to the parent. */
  lemma ReplaceChildContents<V>(s: Node<V>, j: nat, c: Node<V>, k: int)
    requires s.Branch? && j < |s.children|
    requires || Bag(c) == Bag(s.children[j]) + multiset{k}
             || (k in Bag(s.children[j]) && Bag(c) == Bag(s.children[j]))
    ensures var t := Branch(s.elts, s.children[j := c]);
            || Bag(t) == Bag(s) + multiset{k}
            || (k in Bag(s) && Bag(t) == Bag(s))
  {
    var cs := s.children;
    var t := Branch(s.elts, cs[j := c]);
    var own := multiset(Keys(s.elts));
    var f, f' := ForestBag(cs), ForestBag(cs[j := c]);
    var b := Bag(cs[j]);
    assert Bag(t) == own + f';
    assert Bag(s) == own + f;
    ForestBagUpdate(cs, j, c);
    BagShift(f, f', b, Bag(c), k);
    if Bag(c) != b + multiset{k} {
      ForestBagAround(cs, j);
      assert k in f;
    }
  }

  /** Replacing a part `b` of a whole by `c` shifts the whole by what `c` adds to `b`. */
  lemma BagShift(f: multiset<int>, f': multiset<int>, b: multiset<int>, c: multiset<int>, k: int)
    requires f' + b == f + c
    ensures c == b + multiset{k} ==> f' == f + multiset{k}
    ensures c == b ==> f' == f
  {
    forall x ensures f'[x] + b[x] == f[x] + c[x] {
      assert (f' + b)[x] == (f + c)[x];
    }
  }

  /** Insertion adds exactly `k` to the subtree, or only overwrites a value when `k` is already there. */
  lemma {:induction false} InsertNonfullContents<V>(n: Node<V>, k: int, v: V, ub: nat)
    ensures var r := InsertNonfull(n, k, v, ub);
            r.Ok? ==> || Bag(r.value) == Bag(n) + multiset{k}
                      || (k in Bag(n) && Bag(r.value) == Bag(n))
    decreases Height(n)
  {
    var r := InsertNonfull(n, k, v, ub);
    if r.Ok? {
      var idx := BSearch(n.elts, k).value;
      if n.Leaf? {
        LeafPutContents(n.elts, idx, k, v);
      } else {
        InsertNonfullBranchStep(n, k, v, ub);
        var s := SplitChild(n, idx, ub).value;
        var j := DescentIndex(s.elts, idx, k);
        SplitChildKeepsContents(n, idx, ub);
        InsertNonfullContents(s.children[j], k, v, ub);
        ReplaceChildContents(s, j, InsertNonfull(s.children[j], k, v, ub).value, k);
      }
    }
  }

  /** Insertion keeps every leaf of the subtree at the same depth. */
  lemma {:induction false} InsertNonfullUniform<V>(n: Node<V>, k: int, v: V, ub: nat, h: nat)
    requires UniformHeight(n, h)
    ensures var r := InsertNonfull(n, k, v, ub);
            r.Ok? ==> UniformHeight(r.value, h)
    decreases Height(n)
  {
    var r := InsertNonfull(n, k, v, ub);
    if r.Ok? && n.Branch? {
      InsertNonfullBranchStep(n, k, v, ub);
      var idx := BSearch(n.elts, k).value;
      var s := SplitChild(n, idx, ub).value;
      var j := DescentIndex(s.elts, idx, k);
      SplitChildUniform(n, idx, ub, h);
      InsertNonfullUniform(s.children[j], k, v, ub, h - 1);
      var cs := s.children[j := InsertNonfull(s.children[j], k, v, ub).value];
      forall j' | 0 <= j' < |cs| ensures UniformHeight(cs[j'], h - 1) {
        if j' != j {
          assert cs[j'] == s.children[j'];
        }
      }
      assert r.value == Branch(s.elts, cs);
    }
  }
}
