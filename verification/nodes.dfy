/**
 The data model of the B-tree: elements, nodes and the tree wrapper, plus the
 measures the proofs talk about (keys, contents, height, balance).

 Keys are `int` (any total order would do); values are opaque.
 */
module Nodes {

  /** A key/value pair stored in a node. */
  datatype Elt<V> = Elt(key: int, value: V)

  /**
   A node: its elements plus, for a branch, its children. `Leaf` is the
   source's `children: None` and `Branch` is `children: Some(..)`; a branch
   may have any number of children, including none.
   */
  datatype Node<V> =
    | Leaf(elts: seq<Elt<V>>)
    | Branch(elts: seq<Elt<V>>, children: seq<Node<V>>)

  /** The source's `uint`, taken as a 64-bit machine word. */
  newtype Word = x: int | 0 <= x < 0x1_0000_0000_0000_0000

  /** The tree: a root node and the minimum degree `t`, never validated. */
  datatype BTree<V> = BTree(root: Node<V>, minDeg: Word)

  function Max(a: nat, b: nat): nat {
    if a < b then b else a
  }

  /** The keys of a run of elements, in order. */
  function Keys<V>(elts: seq<Elt<V>>): (ks: seq<int>)
    ensures |ks| == |elts|
    ensures forall j :: 0 <= j < |elts| ==> ks[j] == elts[j].key
  {
    seq(|elts|, j requires 0 <= j < |elts| => elts[j].key)
  }

  lemma KeysConcat<V>(a: seq<Elt<V>>, b: seq<Elt<V>>)
    ensures Keys(a + b) == Keys(a) + Keys(b)
  {
  }

  lemma KeysAround<V>(a: seq<Elt<V>>, m: Elt<V>, b: seq<Elt<V>>)
    ensures multiset(Keys(a + [m] + b)) == multiset(Keys(a)) + multiset{m.key} + multiset(Keys(b))
  {
    KeysConcat(a + [m], b);
    KeysConcat(a, [m]);
    assert Keys([m]) == [m.key];
  }

  /** Inserting `x` at `i` adds exactly its key to the run's keys. */
  lemma KeysInsertAt<V>(e: seq<Elt<V>>, i: nat, x: Elt<V>)
    requires i <= |e|
    ensures multiset(Keys(e[..i] + [x] + e[i..])) == multiset(Keys(e)) + multiset{x.key}
  {
    assert e == e[..i] + e[i..];
    KeysAround(e[..i], x, e[i..]);
    KeysConcat(e[..i], e[i..]);
  }

  /** Keys strictly ascending, hence also free of duplicates. */
  predicate Ascending<V>(elts: seq<Elt<V>>) {
    forall i, j :: 0 <= i < j < |elts| ==> elts[i].key < elts[j].key
  }

  /**
   `i` is where key `k` belongs in `elts`: every key before `i` is smaller
   and every key from `i` on is at least `k` (so `elts[i]` holds `k` if any
   element does).
   */
  predicate IsSlot<V>(elts: seq<Elt<V>>, k: int, i: nat) {
    && i <= |elts|
    && (forall j :: 0 <= j < i ==> elts[j].key < k)
    && (forall j :: i <= j < |elts| ==> k <= elts[j].key)
  }

  /** Number of branch levels above the deepest leaf; a childless branch has height 1. */
  function Height<V>(n: Node<V>): nat {
    match n
    case Leaf(_) => 0
    case Branch(_, cs) => 1 + ForestHeight(cs)
  }

  /** The largest height among `cs`, 0 for no children. */
  function ForestHeight<V>(cs: seq<Node<V>>): nat {
    if |cs| == 0 then 0 else Max(ForestHeight(cs[..|cs| - 1]), Height(cs[|cs| - 1]))
  }

  /** Every key stored anywhere in the subtree, with multiplicity. */
  function Bag<V>(n: Node<V>): multiset<int> {
    match n
    case Leaf(e) => multiset(Keys(e))
    case Branch(e, cs) => multiset(Keys(e)) + ForestBag(cs)
  }

  function ForestBag<V>(cs: seq<Node<V>>): multiset<int> {
    if |cs| == 0 then multiset{} else ForestBag(cs[..|cs| - 1]) + Bag(cs[|cs| - 1])
  }

  /**
   Every path from `n` down to a `Leaf` has exactly `h` branch levels; a
   branch without children satisfies this for any `h >= 1`.
   */
  predicate UniformHeight<V>(n: Node<V>, h: nat) {
    match n
    case Leaf(_) => h == 0
    case Branch(_, cs) => h >= 1 && forall j :: 0 <= j < |cs| ==> UniformHeight(cs[j], h - 1)
  }

  lemma {:induction false} ForestHeightConcat<V>(a: seq<Node<V>>, b: seq<Node<V>>)
    ensures ForestHeight(a + b) == Max(ForestHeight(a), ForestHeight(b))
    decreases |b|
  {
    if |b| == 0 {
      assert a + b == a;
    } else {
      var b' := b[..|b| - 1];
      assert (a + b)[..|a + b| - 1] == a + b';
      assert (a + b)[|a + b| - 1] == b[|b| - 1];
      ForestHeightConcat(a, b');
    }
  }

  /** Every child is no taller than the forest's height. */
  lemma {:induction false} ForestHeightBound<V>(cs: seq<Node<V>>, j: nat)
    requires j < |cs|
    ensures Height(cs[j]) <= ForestHeight(cs)
    decreases |cs|
  {
    if j < |cs| - 1 {
      assert cs[..|cs| - 1][j] == cs[j];
      ForestHeightBound(cs[..|cs| - 1], j);
    }
  }

  lemma {:induction false} ForestBagConcat<V>(a: seq<Node<V>>, b: seq<Node<V>>)
    ensures ForestBag(a + b) == ForestBag(a) + ForestBag(b)
    decreases |b|
  {
    if |b| == 0 {
      assert a + b == a;
    } else {
      var b' := b[..|b| - 1];
      assert (a + b)[..|a + b| - 1] == a + b';
      assert (a + b)[|a + b| - 1] == b[|b| - 1];
      ForestBagConcat(a, b');
    }
  }

  lemma ForestBagSingle<V>(c: Node<V>)
    ensures ForestBag([c]) == Bag(c)
  {
    assert [c][..0] == [];
  }

  lemma ForestHeightSingle<V>(c: Node<V>)
    ensures ForestHeight([c]) == Height(c)
  {
    assert [c][..0] == [];
  }

  lemma ForestBagTwo<V>(a: Node<V>, b: Node<V>)
    ensures ForestBag([a, b]) == Bag(a) + Bag(b)
  {
    assert [a, b] == [a] + [b];
    ForestBagConcat([a], [b]);
    ForestBagSingle(a);
    ForestBagSingle(b);
  }

  lemma ForestBagThree<V>(a: Node<V>, b: Node<V>, c: Node<V>)
    ensures ForestBag([a, b, c]) == Bag(a) + Bag(b) + Bag(c)
  {
    assert [a, b, c] == [a] + [b] + [c];
    ForestBagConcat([a] + [b], [c]);
    ForestBagConcat([a], [b]);
    ForestBagSingle(a);
    ForestBagSingle(b);
    ForestBagSingle(c);
  }

  /** The forest's contents split at any point. */
  lemma ForestBagSplit<V>(cs: seq<Node<V>>, j: nat)
    requires j <= |cs|
    ensures ForestBag(cs) == ForestBag(cs[..j]) + ForestBag(cs[j..])
  {
    assert cs[..j] + cs[j..] == cs;
    ForestBagConcat(cs[..j], cs[j..]);
  }

  /** The contents of a forest put together from three runs. */
  lemma ForestBagSandwich<V>(a: seq<Node<V>>, m: seq<Node<V>>, b: seq<Node<V>>)
    ensures ForestBag(a + m + b) == ForestBag(a) + ForestBag(m) + ForestBag(b)
  {
    ForestBagConcat(a + m, b);
    ForestBagConcat(a, m);
  }

  /** The forest's contents around its `j`-th tree. */
  lemma ForestBagAround<V>(cs: seq<Node<V>>, j: nat)
    requires j < |cs|
    ensures ForestBag(cs) == ForestBag(cs[..j]) + Bag(cs[j]) + ForestBag(cs[j + 1..])
  {
    var rest := cs[j..];
    ForestBagSplit(cs, j);
    ForestBagSplit(rest, 1);
    assert rest[..1] == [cs[j]];
    assert rest[1..] == cs[j + 1..];
    ForestBagSingle(cs[j]);
  }

  /** Replacing one child changes the forest's contents by exactly that child's contents. */
  lemma ForestBagUpdate<V>(cs: seq<Node<V>>, j: nat, c: Node<V>)
    requires j < |cs|
    ensures ForestBag(cs[j := c]) + Bag(cs[j]) == ForestBag(cs) + Bag(c)
  {
    ForestBagAround(cs, j);
    ForestBagAround(cs[j := c], j);
    assert cs[j := c][..j] == cs[..j];
    assert cs[j := c][j + 1..] == cs[j + 1..];
  }

  /** Replacing one child by one of the same height keeps the forest's height. */
  lemma ForestHeightUpdate<V>(cs: seq<Node<V>>, j: nat, c: Node<V>)
    requires j < |cs|
    requires Height(c) == Height(cs[j])
    ensures ForestHeight(cs[j := c]) == ForestHeight(cs)
  {
    assert cs == cs[..j] + [cs[j]] + cs[j + 1..];
    assert cs[j := c] == cs[..j] + [c] + cs[j + 1..];
    ForestHeightConcat(cs[..j] + [cs[j]], cs[j + 1..]);
    ForestHeightConcat(cs[..j], [cs[j]]);
    ForestHeightConcat(cs[..j] + [c], cs[j + 1..]);
    ForestHeightConcat(cs[..j], [c]);
    ForestHeightSingle(cs[j]);
    ForestHeightSingle(c);
  }
}
