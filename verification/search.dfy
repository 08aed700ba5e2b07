/**
 `Node::bsearch_node` (btree.rs lines 187-217), as written.

 The code reads `elts[0]` and `elts[len - 1]` first and returns early when
 the key lies outside them; otherwise it bisects. Its `Less` and `Greater`
 arms are swapped: when the probed key is smaller than `k` it moves the
 upper bound down, and when it is larger it moves the lower bound up. The
 result is therefore a correct insertion point only in the early exits and
 the tiny cases, which the lemmas below pin down together with the inputs
 where it is wrong.
 */
module Search {
  import opened Outcomes
  import opened Nodes

  /** The whole search: panics on an empty node, otherwise an index in `[0, |elts|]`. */
  function BSearch<V>(elts: seq<Elt<V>>, k: int): (r: Result<nat>)
    ensures r.Ok? <==> |elts| > 0
    ensures r.Panic? ==> r.fault == EmptyNode
    ensures r.Ok? ==> r.value <= |elts|
  {
    if |elts| == 0 then Panic(EmptyNode)
    else if elts[0].key > k then Ok(0)
    else if elts[|elts| - 1].key < k then Ok(|elts|)
    else Ok(Probe(elts, k, 0, |elts|, |elts| / 2))
  }

  /**
   The bisection loop from state `(min, max, mid) = (lo, hi, mid)`. Its guard
   keeps `lo < mid < hi` inside the loop, so `hi - lo` strictly shrinks.
   */
  function Probe<V>(elts: seq<Elt<V>>, k: int, lo: nat, hi: nat, mid: nat): (r: nat)
    requires lo < hi <= |elts|
    requires mid == (lo + hi) / 2
    ensures lo <= r < hi
    decreases hi - lo
  {
    if hi > lo && lo != mid && hi != mid then
      if elts[mid].key == k then mid
      else if elts[mid].key < k then Probe(elts, k, lo, mid, (lo + mid) / 2)
      else Probe(elts, k, mid, hi, (mid + hi) / 2)
    else
      mid
  }

  /** The search as the source's `while` loop; it computes `BSearch`. */
  method BSearchNode<V>(elts: seq<Elt<V>>, k: int) returns (r: Result<nat>)
    ensures r == BSearch(elts, k)
    ensures r.Ok? ==> r.value <= |elts|
  {
    if |elts| == 0 {
      return Panic(EmptyNode);
    }
    var min: nat, max: nat := 0, |elts|;
    var mid: nat := (min + max) / 2;
    if elts[min].key > k {
      return Ok(0);
    }
    if elts[max - 1].key < k {
      return Ok(max);
    }
    while max > min && min != mid && max != mid
      invariant min < max <= |elts|
      invariant mid == (min + max) / 2
      invariant Probe(elts, k, min, max, mid) == Probe(elts, k, 0, |elts|, |elts| / 2)
      decreases max - min
    {
      if elts[mid].key == k {
        return Ok(mid);
      } else if elts[mid].key < k {
        max := mid;
      } else {
        min := mid;
      }
      mid := (min + max) / 2;
    }
    return Ok(mid);
  }

  /**
   The two early exits are correct insertion points for ascending keys: a
   key below the first goes to 0, a key above the last goes to the end.
   */
  lemma BSearchEarlyExits<V>(elts: seq<Elt<V>>, k: int)
    requires |elts| > 0
    requires Ascending(elts)
    ensures elts[0].key > k ==> BSearch(elts, k) == Ok(0) && IsSlot(elts, k, 0)
    ensures elts[0].key <= k && elts[|elts| - 1].key < k ==>
              BSearch(elts, k) == Ok(|elts|) && IsSlot(elts, k, |elts|)
  {
    if elts[0].key > k {
      forall j | 0 <= j < |elts| ensures k <= elts[j].key {
        if j > 0 { assert elts[0].key < elts[j].key; }
      }
    }
    if elts[0].key <= k && elts[|elts| - 1].key < k {
      forall j | 0 <= j < |elts| ensures elts[j].key < k {
        if j < |elts| - 1 { assert elts[j].key < elts[|elts| - 1].key; }
      }
    }
  }

  /** With one element the answer is always right, ordered or not; a lone `k` is found at 0. */
  lemma BSearchSingle<V>(elts: seq<Elt<V>>, k: int)
    requires |elts| == 1
    ensures BSearch(elts, k).Ok? && IsSlot(elts, k, BSearch(elts, k).value)
    ensures elts[0].key == k ==> BSearch(elts, k) == Ok(0)
  {
  }

  /** Keys `[a, b]` with `a < k <= b` give 1, the case an ordered leaf insert relies on. */
  lemma BSearchPair<V>(elts: seq<Elt<V>>, k: int)
    requires |elts| == 2
    requires elts[0].key < k <= elts[1].key
    ensures BSearch(elts, k) == Ok(1)
    ensures IsSlot(elts, k, 1)
  {
  }

  /**
   For ascending keys of length at most two the result is a correct
   insertion point, except when `k` equals the first of two keys: then the
   swapped arms answer 1 instead of 0.
   */
  lemma BSearchTiny<V>(elts: seq<Elt<V>>, k: int)
    requires 1 <= |elts| <= 2
    requires Ascending(elts)
    ensures IsSlot(elts, k, BSearch(elts, k).value) <==> !(|elts| == 2 && elts[0].key == k)
  {
    if |elts| == 2 {
      assert elts[0].key < elts[1].key;
      if elts[0].key == k {
        assert BSearch(elts, k) == Ok(1);
        assert !(elts[0].key < k);
      }
    }
  }

  /** Keys `[1, 2]`, k = 1: the search answers 1 although 1 sits at index 0. */
  lemma BSearchMissesFirstOfTwo<V>(a: V, b: V)
    ensures var elts := [Elt(1, a), Elt(2, b)];
            BSearch(elts, 1) == Ok(1) && !IsSlot(elts, 1, 1)
  {
    var elts := [Elt(1, a), Elt(2, b)];
    assert Probe(elts, 1, 0, 2, 1) == Probe(elts, 1, 1, 2, 1);
  }

  /** Keys `[1, 2, 3, 4, 5]`, k = 4: the search answers 0, the wrong end of the node. */
  lemma BSearchFiveKeys<V>(x: V)
    ensures var elts := [Elt(1, x), Elt(2, x), Elt(3, x), Elt(4, x), Elt(5, x)];
            BSearch(elts, 4) == Ok(0) && !IsSlot(elts, 4, 0)
  {
    var elts := [Elt(1, x), Elt(2, x), Elt(3, x), Elt(4, x), Elt(5, x)];
    assert Probe(elts, 4, 0, 5, 2) == Probe(elts, 4, 0, 2, 1);
    assert Probe(elts, 4, 0, 2, 1) == Probe(elts, 4, 0, 1, 0);
    assert !(elts[0].key >= 4);
  }
}
