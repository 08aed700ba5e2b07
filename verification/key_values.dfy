/**
 The key/value view of a subtree: every element stored anywhere under a
 node, with multiplicity. `Bag` keeps only the keys; this view keeps the
 values too, so that what an insertion does to the value stored under a
 key can be stated.

 Both splits move elements without touching a value, and the as-written
 insertion always stores the new value under its key without disturbing
 any other key; it may leave an older element with the same key behind
 (see `Scenarios.SeparatorDuplicate`).
 */
module KeyValues {
  import opened Outcomes
  import opened Nodes
  import opened Search
  import opened Split
  import opened Corrected
  import NodeInsert
  import Tree

  /** Every element stored under `n`, with multiplicity. */
  function Entries<V(==)>(n: Node<V>): multiset<Elt<V>> {
    match n
    case Leaf(e) => multiset(e)
    case Branch(e, cs) => multiset(e) + ForestEntries(cs)
  }

  function ForestEntries<V(==)>(cs: seq<Node<V>>): multiset<Elt<V>> {
    if |cs| == 0 then multiset{} else ForestEntries(cs[..|cs| - 1]) + Entries(cs[|cs| - 1])
  }

  /**
   Storing `v` under `k` into `before` gave `after`: the element `(k, v)`
   is there, and every element under another key is stored exactly as often
   as before. Older elements under `k` may remain.
   */
  ghost predicate Puts<V(!new)>(before: multiset<Elt<V>>, after: multiset<Elt<V>>, k: int, v: V) {
    && Elt(k, v) in after
    && forall x: Elt<V> :: x.key != k ==> after[x] == before[x]
  }

  /**
   The upsert: `k` now holds `v` exactly once and no other value, and every
   element under another key is stored exactly as often as before.
   */
  ghost predicate Upserted<V(!new)>(before: multiset<Elt<V>>, after: multiset<Elt<V>>, k: int, v: V) {
    forall x: Elt<V> :: after[x] == if x.key == k then (if x.value == v then 1 else 0) else before[x]
  }

  lemma {:induction false} ForestEntriesConcat<V>(a: seq<Node<V>>, b: seq<Node<V>>)
    ensures ForestEntries(a + b) == ForestEntries(a) + ForestEntries(b)
    decreases |b|
  {
    if |b| == 0 {
      assert a + b == a;
    } else {
      var b' := b[..|b| - 1];
      assert (a + b)[..|a + b| - 1] == a + b';
      assert (a + b)[|a + b| - 1] == b[|b| - 1];
      ForestEntriesConcat(a, b');
    }
  }

  lemma ForestEntriesSingle<V>(c: Node<V>)
    ensures ForestEntries([c]) == Entries(c)
  {
    assert [c][..0] == [];
  }

  /** The forest's elements split at any point. */
  lemma ForestEntriesSplit<V>(cs: seq<Node<V>>, j: nat)
    requires j <= |cs|
    ensures ForestEntries(cs) == ForestEntries(cs[..j]) + ForestEntries(cs[j..])
  {
    assert cs[..j] + cs[j..] == cs;
    ForestEntriesConcat(cs[..j], cs[j..]);
  }

  /** The forest's elements around its `j`-th tree. */
  lemma ForestEntriesAround<V>(cs: seq<Node<V>>, j: nat)
    requires j < |cs|
    ensures ForestEntries(cs) == ForestEntries(cs[..j]) + Entries(cs[j]) + ForestEntries(cs[j + 1..])
  {
    var rest := cs[j..];
    ForestEntriesSplit(cs, j);
    ForestEntriesSplit(rest, 1);
    assert rest[..1] == [cs[j]];
    assert rest[1..] == cs[j + 1..];
    ForestEntriesSingle(cs[j]);
  }

  /** The elements of a forest put together from three runs. */
  lemma ForestEntriesSandwich<V>(a: seq<Node<V>>, m: seq<Node<V>>, b: seq<Node<V>>)
    ensures ForestEntries(a + m + b) == ForestEntries(a) + ForestEntries(m) + ForestEntries(b)
  {
    ForestEntriesConcat(a + m, b);
    ForestEntriesConcat(a, m);
  }

  lemma ForestEntriesTwo<V>(a: Node<V>, b: Node<V>)
    ensures ForestEntries([a, b]) == Entries(a) + Entries(b)
  {
    assert [a, b] == [a] + [b];
    ForestEntriesConcat([a], [b]);
    ForestEntriesSingle(a);
    ForestEntriesSingle(b);
  }

  lemma ForestEntriesThree<V>(a: Node<V>, b: Node<V>, c: Node<V>)
    ensures ForestEntries([a, b, c]) == Entries(a) + Entries(b) + Entries(c)
  {
    assert [a, b, c] == [a, b] + [c];
    ForestEntriesConcat([a, b], [c]);
    ForestEntriesTwo(a, b);
    ForestEntriesSingle(c);
  }

  /** An element stored under `n` has its key among `n`'s keys. */
  lemma {:induction false} EntryKeyStored<V>(n: Node<V>, x: Elt<V>)
    ensures x in Entries(n) ==> x.key in Bag(n)
    decreases n
  {
    var e := n.elts;
    if x in multiset(e) {
      var i :| 0 <= i < |e| && e[i] == x;
      assert Keys(e)[i] == x.key;
    } else if x in Entries(n) {
      var cs := n.children;
      var j := ForestEntryKeyStored(cs, x);
      ForestBagAround(cs, j);
    }
  }

  /** An element stored in a forest has its key in one of its trees; `j` is that tree. */
  lemma {:induction false} ForestEntryKeyStored<V>(cs: seq<Node<V>>, x: Elt<V>) returns (j: nat)
    requires x in ForestEntries(cs)
    ensures j < |cs| && x.key in Bag(cs[j])
    decreases cs
  {
    var last := |cs| - 1;
    var init := cs[..last];
    if x in ForestEntries(init) {
      j := ForestEntryKeyStored(init, x);
      assert init[j] == cs[j];
    } else {
      j := last;
      EntryKeyStored(cs[last], x);
    }
  }

  /** A subtree that does not hold key `k` stores no element under it. */
  lemma KeyAbsent<V>(n: Node<V>, k: int)
    requires k !in Bag(n)
    ensures forall x: Elt<V> :: x.key == k ==> Entries(n)[x] == 0
  {
    forall x: Elt<V> | x.key == k ensures Entries(n)[x] == 0 {
      EntryKeyStored(n, x);
    }
  }

  /** A forest none of whose trees holds `k` stores no element under it. */
  lemma {:induction false} ForestKeyAbsent<V>(cs: seq<Node<V>>, k: int)
    requires forall i :: 0 <= i < |cs| ==> k !in Bag(cs[i])
    ensures forall x: Elt<V> :: x.key == k ==> ForestEntries(cs)[x] == 0
    decreases |cs|
  {
    if |cs| > 0 {
      var last := |cs| - 1;
      var init := cs[..last];
      assert forall i :: 0 <= i < |init| ==> init[i] == cs[i];
      ForestKeyAbsent(init, k);
      KeyAbsent(cs[last], k);
    }
  }

  /** Elements that hold no key `k` store no element under it. */
  lemma NotHeldAbsent<V>(e: seq<Elt<V>>, k: int)
    requires forall j :: 0 <= j < |e| ==> e[j].key != k
    ensures forall x: Elt<V> :: x.key == k ==> multiset(e)[x] == 0
  {
  }

  /** Putting `x` at `i` in place of `e[i]` swaps one element for the other. */
  lemma SwapAt<V>(e: seq<Elt<V>>, i: nat, x: Elt<V>)
    requires i < |e|
    ensures multiset(e[i := x]) + multiset{e[i]} == multiset(e) + multiset{x}
  {
    assert e == e[..i] + [e[i]] + e[i + 1..];
    assert e[i := x] == e[..i] + [x] + e[i + 1..];
  }

  /** Inserting `x` at `i` adds exactly `x`. */
  lemma InsertAtEntries<V>(e: seq<Elt<V>>, i: nat, x: Elt<V>)
    requires i <= |e|
    ensures multiset(e[..i] + [x] + e[i..]) == multiset(e) + multiset{x}
  {
    assert e == e[..i] + e[i..];
  }

  /** The two halves and the median hold exactly the child's elements. */
  lemma CarveHalvesEntries<V>(c: Node<V>)
    requires |c.elts| >= 1
    ensures var p := Carve(c);
            Entries(p.left) + Entries(p.right) + multiset{p.median} == Entries(c)
  {
    var p := Carve(c);
    assert multiset(c.elts) == multiset(p.left.elts) + multiset{p.median} + multiset(p.right.elts);
    if c.Branch? {
      ForestEntriesConcat(p.left.children, p.right.children);
    }
  }

  /** The as-written split moves elements around but neither loses nor changes one. */
  lemma SplitChildKeepsEntries<V>(n: Node<V>, i: nat, ub: nat)
    ensures SplitChild(n, i, ub).Ok? ==> Entries(SplitChild(n, i, ub).value) == Entries(n)
  {
    var r := SplitChild(n, i, ub);
    if r.Ok? && Splits(n, i, ub) {
      var cs := n.children;
      var p := Carve(cs[i]);
      var trio := [p.left, p.right, p.drained];
      assert r.value.elts == n.elts[..i] + [p.median] + n.elts[i..];
      assert r.value.children == cs[..i] + trio + cs[i + 1..];
      InsertAtEntries(n.elts, i, p.median);
      CarveHalvesEntries(cs[i]);
      ForestEntriesThree(p.left, p.right, p.drained);
      assert Entries(p.drained) == multiset{};
      ForestEntriesAround(cs, i);
      ForestEntriesSandwich(cs[..i], trio, cs[i + 1..]);
    }
  }

  /** The corrected split likewise keeps every element. */
  lemma SplitChildReplacingKeepsEntries<V>(n: Node<V>, i: nat, ub: nat)
    ensures SplitChildReplacing(n, i, ub).Ok? ==> Entries(SplitChildReplacing(n, i, ub).value) == Entries(n)
  {
    var r := SplitChildReplacing(n, i, ub);
    if r.Ok? && Splits(n, i, ub) {
      var cs := n.children;
      var p := Carve(cs[i]);
      var pair := [p.left, p.right];
      assert r.value.elts == n.elts[..i] + [p.median] + n.elts[i..];
      assert r.value.children == cs[..i] + pair + cs[i + 1..];
      InsertAtEntries(n.elts, i, p.median);
      CarveHalvesEntries(cs[i]);
      ForestEntriesTwo(p.left, p.right);
      ForestEntriesAround(cs, i);
      ForestEntriesSandwich(cs[..i], pair, cs[i + 1..]);
    }
  }

  /** The leaf step, at any index, stores `(k, v)` and leaves every other key alone. */
  lemma LeafPutPuts<V(!new)>(e: seq<Elt<V>>, idx: nat, k: int, v: V)
    ensures Puts(multiset(e), multiset(NodeInsert.LeafPut(e, idx, k, v)), k, v)
  {
    if idx < |e| && e[idx].key == k {
      SwapAt(e, idx, Elt(k, v));
      assert NodeInsert.LeafPut(e, idx, k, v) == e[idx := Elt(k, v)];
    } else if idx < |e| {
      InsertAtEntries(e, idx, Elt(k, v));
    }
  }

  /** Replacing one child by one that had `v` stored under `k` does the same to the parent. */
  lemma ReplaceChildPuts<V(!new)>(s: Node<V>, j: nat, c: Node<V>, k: int, v: V)
    requires s.Branch? && j < |s.children|
    requires Puts(Entries(s.children[j]), Entries(c), k, v)
    ensures Puts(Entries(s), Entries(Branch(s.elts, s.children[j := c])), k, v)
  {
    var cs := s.children;
    var cs' := cs[j := c];
    ForestEntriesAround(cs, j);
    ForestEntriesAround(cs', j);
    assert cs'[..j] == cs[..j] && cs'[j + 1..] == cs[j + 1..];
  }

  /**
   The as-written insertion, whenever it does not panic, stores `(k, v)`
   and stores every element under another key exactly as often as before.
   */
  lemma {:induction false} InsertNonfullPuts<V(!new)>(n: Node<V>, k: int, v: V, ub: nat)
    ensures var r := NodeInsert.InsertNonfull(n, k, v, ub);
            r.Ok? ==> Puts(Entries(n), Entries(r.value), k, v)
    decreases Height(n)
  {
    var r := NodeInsert.InsertNonfull(n, k, v, ub);
    if r.Ok? {
      var idx := BSearch(n.elts, k).value;
      if n.Leaf? {
        LeafPutPuts(n.elts, idx, k, v);
      } else {
        NodeInsert.InsertNonfullBranchStep(n, k, v, ub);
        var s := SplitChild(n, idx, ub).value;
        var j := NodeInsert.DescentIndex(s.elts, idx, k);
        SplitChildKeepsEntries(n, idx, ub);
        InsertNonfullPuts(s.children[j], k, v, ub);
        ReplaceChildPuts(s, j, NodeInsert.InsertNonfull(s.children[j], k, v, ub).value, k, v);
      }
    }
  }

  /** The as-written root split keeps every element of the old root. */
  lemma StartNodeEntries<V>(t: BTree<V>)
    ensures Entries(Tree.StartNode(t)) == Entries(t.root)
  {
    var ub := Tree.Capacity(t.minDeg);
    if |t.root.elts| >= ub {
      var e := Branch([], [t.root]);
      SplitChildKeepsEntries(e, 0, ub);
      ForestEntriesSingle(t.root);
    }
  }

  /**
   Every as-written `insert(k, v)` that does not panic stores `(k, v)` in
   the tree and leaves the elements under every other key as they were.
   */
  lemma InsertPuts<V(!new)>(t: BTree<V>, k: int, v: V)
    ensures var r := Tree.Insert(t, k, v);
            r.Ok? ==> Puts(Entries(t.root), Entries(r.value.root), k, v)
  {
    StartNodeEntries(t);
    InsertNonfullPuts(Tree.StartNode(t), k, v, Tree.Capacity(t.minDeg));
  }
}
