/**
 The fixtures of the source's own unit tests (btree.rs lines 224-346), each
 restated as a lemma about the model, plus concrete runs that exhibit the
 departures from the documented behaviour: a duplicate key, a panic on the
 drained child, and the key placed on the wrong side of its separator.
 */
module Scenarios {
  import opened Outcomes
  import opened Nodes
  import opened Search
  import opened Split
  import opened NodeInsert
  import opened Tree

  function E(k: int, v: string): Elt<string> {
    Elt(k, v)
  }

  /** The parent used by the first two split tests: keys 3, 7 over leaves [1 2], [4 5 6], [8 9]. */
  function SplitFixture(): Node<string> {
    Branch([E(3, "a"), E(7, "b")],
           [Leaf([E(1, "c"), E(2, "d")]),
            Leaf([E(4, "e"), E(5, "f"), E(6, "g")]),
            Leaf([E(8, "h"), E(9, "i")])])
  }

  /**
   split_child_test_1 and split_child_test_2: with `ub = 2` the middle leaf
   splits around 5; the parent's second key is 5 and its second child
   starts with 4. The drained leaf stays behind as an empty fourth child.
   */
  lemma SplitChildTest1And2()
    ensures var r := SplitChild(SplitFixture(), 1, 2);
            && r.Ok?
            && r.value.elts[1].key == 5
            && r.value.children[1].elts[0].key == 4
            && r.value == Branch([E(3, "a"), E(5, "f"), E(7, "b")],
                                 [Leaf([E(1, "c"), E(2, "d")]),
                                  Leaf([E(4, "e")]),
                                  Leaf([E(6, "g")]),
                                  Leaf([]),
                                  Leaf([E(8, "h"), E(9, "i")])])
  {
    var p := SplitFixture();
    var e := p.children[1].elts;
    assert e[..1] == [E(4, "e")] && e[2..] == [E(6, "g")];
    assert p.elts[..1] + [E(5, "f")] + p.elts[1..] == [E(3, "a"), E(5, "f"), E(7, "b")];
  }

  /**
   split_child_test_3: splitting a branch child [5 7 9] with four leaves
   gives the left half the first two grandchildren, so the first
   grandchild of the parent's second child starts with 4.
   */
  lemma SplitChildTest3()
    ensures var p := Branch([E(3, "a"), E(11, "b")],
                            [Leaf([E(1, "c"), E(2, "d")]),
                             Branch([E(5, "e"), E(7, "f"), E(9, "g")],
                                    [Leaf([E(4, "h")]), Leaf([E(6, "i")]),
                                     Leaf([E(8, "j")]), Leaf([E(10, "k")])]),
                             Leaf([E(12, "l"), E(13, "m")])]);
            var r := SplitChild(p, 1, 2);
            && r.Ok?
            && r.value.children[1].children[0].elts[0].key == 4
            && r.value.children[1] == Branch([E(5, "e")], [Leaf([E(4, "h")]), Leaf([E(6, "i")])])
            && r.value.children[2] == Branch([E(9, "g")], [Leaf([E(8, "j")]), Leaf([E(10, "k")])])
            && r.value.children[3] == Branch([], [])
  {
  }

  /** insert_test_1: [1 3] + 2 gives [1 2 3]. */
  lemma InsertTest1()
    ensures var r := Insert(BTree(Leaf([E(1, "a"), E(3, "c")]), 2), 2, "b");
            r == Ok(BTree(Leaf([E(1, "a"), E(2, "b"), E(3, "c")]), 2))
  {
    var e := [E(1, "a"), E(3, "c")];
    assert Probe(e, 2, 0, 2, 1) == Probe(e, 2, 1, 2, 1) == 1;
    assert BSearch(e, 2) == Ok(1);
    assert LeafPut(e, 1, 2, "b") == [E(1, "a"), E(2, "b"), E(3, "c")];
    assert InsertNonfull(Leaf(e), 2, "b", 3) == Ok(Leaf([E(1, "a"), E(2, "b"), E(3, "c")]));
  }

  /** insert_test_2: [1 2] + 3 gives [1 2 3]. */
  lemma InsertTest2()
    ensures var r := Insert(BTree(Leaf([E(1, "a"), E(2, "b")]), 2), 3, "c");
            r == Ok(BTree(Leaf([E(1, "a"), E(2, "b"), E(3, "c")]), 2))
  {
    var e := [E(1, "a"), E(2, "b")];
    assert BSearch(e, 3) == Ok(2);
    assert LeafPut(e, 2, 3, "c") == [E(1, "a"), E(2, "b"), E(3, "c")];
    assert InsertNonfull(Leaf(e), 3, "c", 3) == Ok(Leaf([E(1, "a"), E(2, "b"), E(3, "c")]));
  }

  /** insert_test_3: [2 3] + 1 gives [1 2 3]. */
  lemma InsertTest3()
    ensures var r := Insert(BTree(Leaf([E(2, "b"), E(3, "c")]), 2), 1, "a");
            r == Ok(BTree(Leaf([E(1, "a"), E(2, "b"), E(3, "c")]), 2))
  {
    var e := [E(2, "b"), E(3, "c")];
    assert BSearch(e, 1) == Ok(0);
    assert LeafPut(e, 0, 1, "a") == [E(1, "a"), E(2, "b"), E(3, "c")];
    assert InsertNonfull(Leaf(e), 1, "a", 3) == Ok(Leaf([E(1, "a"), E(2, "b"), E(3, "c")]));
  }

  /**
   insert_test_4: an over-full root [1 2 3 4] (capacity 3) is split before
   the insertion; 2 becomes the root, and 5 ends in the right half.
   */
  lemma InsertTest4()
    ensures var r := Insert(BTree(Leaf([E(1, "a"), E(2, "b"), E(3, "c"), E(4, "d")]), 2), 5, "3");
            && r.Ok?
            && r.value.root.elts[0].key == 2
            && r.value.root == Branch([E(2, "b")],
                                      [Leaf([E(1, "a")]),
                                       Leaf([E(3, "c"), E(4, "d"), E(5, "3")]),
                                       Leaf([])])
  {
    var root := Leaf([E(1, "a"), E(2, "b"), E(3, "c"), E(4, "d")]);
    var g := Branch([E(2, "b")], [Leaf([E(1, "a")]), Leaf([E(3, "c"), E(4, "d")]), Leaf([])]);
    var p := Carve(root);
    assert p.left == Leaf([E(1, "a")]) && p.median == E(2, "b") && p.right == Leaf([E(3, "c"), E(4, "d")]);
    var b: Node<string> := Branch([], [root]);
    assert b.elts[..0] + [p.median] + b.elts[0..] == [E(2, "b")];
    assert b.children[..0] + [p.left, p.right, p.drained] + b.children[1..] == g.children;
    assert GrowRoot(root, 3) == Ok(g);
    assert BSearch(g.elts, 5) == Ok(1);
    assert SplitChild(g, 1, 3) == Ok(g);
    assert DescentIndex(g.elts, 1, 5) == 1;
    assert BSearch(g.children[1].elts, 5) == Ok(2);
    assert LeafPut(g.children[1].elts, 2, 5, "3") == [E(3, "c"), E(4, "d"), E(5, "3")];
    assert InsertNonfull(g.children[1], 5, "3", 3) == Ok(Leaf([E(3, "c"), E(4, "d"), E(5, "3")]));
  }

  /**
   insert_test_5: the full middle child [3 4 6 7] is split around 4 before
   the descent, so the root's second key is 4; the reversed adjustment then
   puts 5 into the child [3], to the LEFT of the separator 4.
   */
  lemma InsertTest5()
    ensures var root := Branch([E(2, "a"), E(8, "b")],
                               [Leaf([E(0, "c"), E(1, "d")]),
                                Leaf([E(3, "x"), E(4, "e"), E(6, "f"), E(7, "g")]),
                                Leaf([E(9, "h"), E(10, "i")])]);
            var r := Insert(BTree(root, 2), 5, "omg");
            && r.Ok?
            && r.value.root.elts[1].key == 4
            && r.value.root.children[1] == Leaf([E(3, "x"), E(5, "omg")])
            && r.value.root.children[1].elts[1].key > r.value.root.elts[1].key
  {
  }

  /**
   Re-inserting a stored key can add a duplicate: after `new(1, _, 2)` and
   inserting 2, the search for 1 in [1 2] answers 1, so 1 is inserted again.
   */
  lemma DuplicateKey()
    ensures var t1 := Insert(New(1, "a", 2), 2, "b");
            && t1 == Ok(BTree(Leaf([E(1, "a"), E(2, "b")]), 2))
            && var t2 := Insert(t1.value, 1, "c");
            && t2 == Ok(BTree(Leaf([E(1, "a"), E(1, "c"), E(2, "b")]), 2))
            && !Ascending(t2.value.root.elts)
  {
    var e1 := [E(1, "a")];
    assert BSearch(e1, 2) == Ok(1);
    assert LeafPut(e1, 1, 2, "b") == [E(1, "a"), E(2, "b")];
    assert InsertNonfull(Leaf(e1), 2, "b", 3) == Ok(Leaf([E(1, "a"), E(2, "b")]));
    var e2 := [E(1, "a"), E(2, "b")];
    assert Probe(e2, 1, 0, 2, 1) == Probe(e2, 1, 1, 2, 1) == 1;
    assert BSearch(e2, 1) == Ok(1);
    assert e2[..1] == [E(1, "a")] && e2[1..] == [E(2, "b")];
    assert LeafPut(e2, 1, 1, "c") == [E(1, "a"), E(1, "c"), E(2, "b")];
    assert InsertNonfull(Leaf(e2), 1, "c", 3) == Ok(Leaf([E(1, "a"), E(1, "c"), E(2, "b")]));
    var e3 := [E(1, "a"), E(1, "c"), E(2, "b")];
    assert !(e3[0].key < e3[1].key);
  }

  /** An element whose value is its key, for the longer runs below. */
  function X(k: int): Elt<int> {
    Elt(k, k)
  }

  /**
   A key equal to a separator is handed on to the leaves, as the branch
   step intends; no leaf below holds the separator's key, so the key is
   stored a second time there and the separator keeps its old value.
   */
  lemma SeparatorDuplicate()
    ensures var t := BTree(Branch([X(2)], [Leaf([X(1)]), Leaf([X(3), X(5)])]), 2);
            var r := Insert(t, 2, 20);
            && r == Ok(BTree(Branch([X(2)], [Leaf([X(1), Elt(2, 20)]), Leaf([X(3), X(5)])]), 2))
            && Bag(t.root)[2] == 1
            && Bag(r.value.root)[2] == 2
  {
    var n := Branch([X(2)], [Leaf([X(1)]), Leaf([X(3), X(5)])]);
    assert BSearch(n.elts, 2) == Ok(0);
    assert SplitChild(n, 0, 3) == Ok(n);
    assert DescentIndex(n.elts, 0, 2) == 0;
    assert BSearch([X(1)], 2) == Ok(1);
    assert LeafPut([X(1)], 1, 2, 20) == [X(1), Elt(2, 20)];
    assert InsertNonfull(Leaf([X(1)]), 2, 20, 3) == Ok(Leaf([X(1), Elt(2, 20)]));
    assert n.children[0 := Leaf([X(1), Elt(2, 20)])] == [Leaf([X(1), Elt(2, 20)]), Leaf([X(3), X(5)])];
    assert InsertNonfull(n, 2, 20, 3) == Ok(Branch([X(2)], [Leaf([X(1), Elt(2, 20)]), Leaf([X(3), X(5)])]));
    var r := Branch([X(2)], [Leaf([X(1), Elt(2, 20)]), Leaf([X(3), X(5)])]);
    assert Keys([X(1), Elt(2, 20)]) == [1, 2];
    assert Keys([X(3), X(5)]) == [3, 5];
    ForestBagTwo(Leaf([X(1)]), Leaf([X(3), X(5)]));
    ForestBagTwo(Leaf([X(1), Elt(2, 20)]), Leaf([X(3), X(5)]));
  }

  /** The states of the run `new(1)`, then 2, 3, 5, 6, 4, 7, 8 with `t = 2`. */
  function Run(i: nat): Node<int> {
    if i == 0 then Leaf([X(1)])
    else if i == 1 then Leaf([X(1), X(2)])
    else if i == 2 then Leaf([X(1), X(2), X(3)])
    else if i == 3 then Branch([X(2)], [Leaf([X(1)]), Leaf([X(3), X(5)]), Leaf([])])
    else if i == 4 then Branch([X(2)], [Leaf([X(1)]), Leaf([X(3), X(5), X(6)]), Leaf([])])
    else if i == 5 then Branch([X(2), X(5)], [Leaf([X(1)]), Leaf([X(3)]), Leaf([X(4), X(6)]), Leaf([]), Leaf([])])
    else if i == 6 then Branch([X(2), X(5)], [Leaf([X(1)]), Leaf([X(3)]), Leaf([X(4), X(6), X(7)]), Leaf([]), Leaf([])])
    else Branch([X(2), X(5), X(6)], [Leaf([X(1)]), Leaf([X(3)]), Leaf([X(4), X(8)]), Leaf([X(7)]), Leaf([]), Leaf([]), Leaf([])])
  }

  lemma RunLeaves()
    ensures Insert(BTree(Run(0), 2), 2, 2) == Ok(BTree(Run(1), 2))
    ensures Insert(BTree(Run(1), 2), 3, 3) == Ok(BTree(Run(2), 2))
  {
    var e0, e1 := Run(0).elts, Run(1).elts;
    assert BSearch(e0, 2) == Ok(1) && LeafPut(e0, 1, 2, 2) == Run(1).elts;
    assert InsertNonfull(Run(0), 2, 2, 3) == Ok(Run(1));
    assert BSearch(e1, 3) == Ok(2) && LeafPut(e1, 2, 3, 3) == Run(2).elts;
    assert InsertNonfull(Run(1), 3, 3, 3) == Ok(Run(2));
  }

  lemma RunRootSplit()
    ensures Insert(BTree(Run(2), 2), 5, 5) == Ok(BTree(Run(3), 2))
  {
    var root := Run(2);
    var g := Branch([X(2)], [Leaf([X(1)]), Leaf([X(3)]), Leaf([])]);
    var p := Carve(root);
    assert p.left == Leaf([X(1)]) && p.median == X(2) && p.right == Leaf([X(3)]);
    var b: Node<int> := Branch([], [root]);
    assert b.elts[..0] + [p.median] + b.elts[0..] == [X(2)];
    assert b.children[..0] + [p.left, p.right, p.drained] + b.children[1..] == g.children;
    assert GrowRoot(root, 3) == Ok(g);
    assert BSearch(g.elts, 5) == Ok(1);
    assert SplitChild(g, 1, 3) == Ok(g);
    assert BSearch(g.children[1].elts, 5) == Ok(1);
    assert LeafPut(g.children[1].elts, 1, 5, 5) == [X(3), X(5)];
    assert InsertNonfull(g.children[1], 5, 5, 3) == Ok(Leaf([X(3), X(5)]));
    assert g.children[1 := Leaf([X(3), X(5)])] == Run(3).children;
  }

  lemma RunGrowChild()
    ensures Insert(BTree(Run(3), 2), 6, 6) == Ok(BTree(Run(4), 2))
  {
    var n := Run(3);
    assert BSearch(n.elts, 6) == Ok(1);
    assert SplitChild(n, 1, 3) == Ok(n);
    assert BSearch(n.children[1].elts, 6) == Ok(2);
    assert LeafPut(n.children[1].elts, 2, 6, 6) == [X(3), X(5), X(6)];
    assert InsertNonfull(n.children[1], 6, 6, 3) == Ok(Leaf([X(3), X(5), X(6)]));
    assert n.children[1 := Leaf([X(3), X(5), X(6)])] == Run(4).children;
  }

  /** The state of the run just after the split that inserting 4 makes, before the descent. */
  function RunSplitForFour(): Node<int> {
    Branch([X(2), X(5)], [Leaf([X(1)]), Leaf([X(3)]), Leaf([X(6)]), Leaf([]), Leaf([])])
  }

  lemma RunSplitsForFour()
    ensures SplitChild(Run(4), 1, 3) == Ok(RunSplitForFour())
  {
    var n := Run(4);
    var p := Carve(n.children[1]);
    assert p.left == Leaf([X(3)]) && p.median == X(5) && p.right == Leaf([X(6)]);
    var s := RunSplitForFour();
    assert n.elts[..1] + [p.median] + n.elts[1..] == s.elts;
    assert n.children[..1] + [p.left, p.right, p.drained] + n.children[2..] == s.children;
  }

  lemma RunFirstChildSplit()
    ensures Insert(BTree(Run(4), 2), 4, 4) == Ok(BTree(Run(5), 2))
  {
    var n := Run(4);
    var s := RunSplitForFour();
    assert BSearch(n.elts, 4) == Ok(1);
    RunSplitsForFour();
    assert DescentIndex(s.elts, 1, 4) == 2;
    assert BSearch(s.children[2].elts, 4) == Ok(0);
    assert LeafPut(s.children[2].elts, 0, 4, 4) == [X(4), X(6)];
    assert InsertNonfull(s.children[2], 4, 4, 3) == Ok(Leaf([X(4), X(6)]));
    assert s.children[2 := Leaf([X(4), X(6)])] == Run(5).children;
  }

  lemma RunGrowThird()
    ensures Insert(BTree(Run(5), 2), 7, 7) == Ok(BTree(Run(6), 2))
  {
    var n := Run(5);
    assert BSearch(n.elts, 7) == Ok(2);
    assert SplitChild(n, 2, 3) == Ok(n);
    assert BSearch(n.children[2].elts, 7) == Ok(2);
    assert LeafPut(n.children[2].elts, 2, 7, 7) == [X(4), X(6), X(7)];
    assert InsertNonfull(n.children[2], 7, 7, 3) == Ok(Leaf([X(4), X(6), X(7)]));
    assert n.children[2 := Leaf([X(4), X(6), X(7)])] == Run(6).children;
  }

  /** The state of the run just after the split that inserting 8 makes, before the descent. */
  function RunSplitForEight(): Node<int> {
    Branch([X(2), X(5), X(6)],
           [Leaf([X(1)]), Leaf([X(3)]), Leaf([X(4)]), Leaf([X(7)]), Leaf([]), Leaf([]), Leaf([])])
  }

  lemma RunSplitsForEight()
    ensures SplitChild(Run(6), 2, 3) == Ok(RunSplitForEight())
  {
    var n := Run(6);
    var p := Carve(n.children[2]);
    assert p.left == Leaf([X(4)]) && p.median == X(6) && p.right == Leaf([X(7)]);
    var s := RunSplitForEight();
    assert n.elts[..2] + [p.median] + n.elts[2..] == s.elts;
    assert n.children[..2] + [p.left, p.right, p.drained] + n.children[3..] == s.children;
  }

  lemma RunSecondChildSplit()
    ensures Insert(BTree(Run(6), 2), 8, 8) == Ok(BTree(Run(7), 2))
  {
    var n := Run(6);
    var s := RunSplitForEight();
    assert BSearch(n.elts, 8) == Ok(2);
    RunSplitsForEight();
    assert DescentIndex(s.elts, 2, 8) == 2;
    assert BSearch(s.children[2].elts, 8) == Ok(1);
    assert LeafPut(s.children[2].elts, 1, 8, 8) == [X(4), X(8)];
    assert InsertNonfull(s.children[2], 8, 8, 3) == Ok(Leaf([X(4), X(8)]));
    assert s.children[2 := Leaf([X(4), X(8)])] == Run(7).children;
  }

  /**
   The next root split hands the right half only drained children, and
   inserting 9 descends into one of them: the search reads `elts[0]` of an
   empty node and panics.
   */
  lemma RunFinalPanic()
    ensures Insert(BTree(Run(7), 2), 9, 9) == Panic(EmptyNode)
  {
    var root := Run(7);
    var p := Carve(root);
    var cs := root.children;
    assert cs[..4] == [Leaf([X(1)]), Leaf([X(3)]), Leaf([X(4), X(8)]), Leaf([X(7)])];
    assert cs[4..] == [Leaf([]), Leaf([]), Leaf([])];
    var right := Branch([X(6)], [Leaf([]), Leaf([]), Leaf([])]);
    assert p.median == X(5) && p.right == right;
    var b: Node<int> := Branch([], [root]);
    var g := Branch([X(5)], [p.left, right, p.drained]);
    assert b.elts[..0] + [p.median] + b.elts[0..] == [X(5)];
    assert b.children[..0] + [p.left, p.right, p.drained] + b.children[1..] == g.children;
    assert GrowRoot(root, 3) == Ok(g);
    assert BSearch(g.elts, 9) == Ok(1);
    assert SplitChild(g, 1, 3) == Ok(g);
    assert BSearch(right.elts, 9) == Ok(1);
    assert SplitChild(right, 1, 3) == Ok(right);
    var drained: Node<int> := Leaf([]);
    assert right.children[1] == drained;
    assert InsertNonfull(drained, 9, 9, 3) == Panic(EmptyNode);
    assert InsertNonfull(right, 9, 9, 3) == Panic(EmptyNode);
    assert InsertNonfull(g, 9, 9, 3) == Panic(EmptyNode);
  }

  /**
   With `t = 2`, `new(1)` followed by inserting 2, 3, 5, 6, 4, 7, 8 succeeds
   step by step, and then inserting 9 panics: the drained children that
   `split_child` leaves behind end up on the insertion path.
   */
  lemma DrainedChildPanic()
    ensures var t0 := New(1, 1, 2);
            && Insert(t0, 2, 2) == Ok(BTree(Run(1), 2))
            && Insert(BTree(Run(1), 2), 3, 3) == Ok(BTree(Run(2), 2))
            && Insert(BTree(Run(2), 2), 5, 5) == Ok(BTree(Run(3), 2))
            && Insert(BTree(Run(3), 2), 6, 6) == Ok(BTree(Run(4), 2))
            && Insert(BTree(Run(4), 2), 4, 4) == Ok(BTree(Run(5), 2))
            && Insert(BTree(Run(5), 2), 7, 7) == Ok(BTree(Run(6), 2))
            && Insert(BTree(Run(6), 2), 8, 8) == Ok(BTree(Run(7), 2))
            && Insert(BTree(Run(7), 2), 9, 9) == Panic(EmptyNode)
  {
    assert New(1, 1, 2) == BTree(Run(0), 2);
    RunLeaves();
    RunRootSplit();
    RunGrowChild();
    RunFirstChildSplit();
    RunGrowThird();
    RunSecondChildSplit();
    RunFinalPanic();
  }
}
