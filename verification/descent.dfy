/**
  The root-to-leaf descent shared by `search`, `insert` and `operator()`:
  go left on a smaller key, go right only through a real child, and stop
  at a null left pointer or at a thread.
 */
module Descent {
  import opened Bstt

  /** Every node ranked below `lo[c]` has a smaller key than `k`, every node
      ranked at or above `hi[c]` a larger one: `k` can only be in `c`'s subtree. */
  ghost predicate Brackets<V>(nodes: seq<Node<V>>, L: Layout, k: int, c: nat)
    requires Ranked(|nodes|, L) && c < |nodes|
  {
    forall i :: 0 <= i < |nodes| ==>
      (L.pos[i] < L.lo[c] ==> nodes[i].key < k) && (L.hi[c] <= L.pos[i] ==> k < nodes[i].key)
  }

  /** `k` belongs exactly at rank `p`: smaller keys rank below, larger ones at or above. */
  ghost predicate RankIs<V>(nodes: seq<Node<V>>, L: Layout, k: int, p: nat)
    requires Ranked(|nodes|, L)
  {
    forall i :: 0 <= i < |nodes| ==>
      (L.pos[i] < p ==> nodes[i].key < k) && (p <= L.pos[i] ==> k < nodes[i].key)
  }

  /** The descent measure: the number of ranks a subtree holds. */
  ghost function Width<V>(nodes: seq<Node<V>>, L: Layout, cur: Option<nat>): nat
    requires Arranged(nodes, L)
  {
    match cur
    case Some(c) => if c < |nodes| then assert NodeOk(nodes, L, c); L.hi[c] - L.lo[c] + 1 else 0
    case None => 0
  }

  lemma RootBrackets<V>(nodes: seq<Node<V>>, r: nat, L: Layout, k: int)
    requires Shaped(nodes, Some(r), L)
    ensures Brackets(nodes, L, k, r)
  {
  }

  lemma DescendLeft<V>(nodes: seq<Node<V>>, L: Layout, k: int, c: nat)
    requires Arranged(nodes, L) && c < |nodes| && Brackets(nodes, L, k, c)
    requires k < nodes[c].key
    ensures 0 < Width(nodes, L, Some(c))
    ensures nodes[c].left.None? ==> RankIs(nodes, L, k, L.pos[c])
    ensures nodes[c].left.Some? ==>
      nodes[c].left.value < |nodes| && Brackets(nodes, L, k, nodes[c].left.value)
      && Width(nodes, L, nodes[c].left) < Width(nodes, L, Some(c))
  {
    assert NodeOk(nodes, L, c);
    forall i | 0 <= i < |nodes| && L.pos[c] <= L.pos[i]
      ensures k < nodes[i].key
    {
      SameRank(nodes, L, i, c);
    }
  }

  lemma DescendRight<V>(nodes: seq<Node<V>>, L: Layout, k: int, c: nat)
    requires Arranged(nodes, L) && c < |nodes| && Brackets(nodes, L, k, c)
    requires nodes[c].key < k
    ensures 0 < Width(nodes, L, Some(c))
    ensures !nodes[c].right.Child? ==> RankIs(nodes, L, k, L.pos[c] + 1)
    ensures nodes[c].right.Child? ==>
      nodes[c].right.to < |nodes| && Brackets(nodes, L, k, nodes[c].right.to)
      && Width(nodes, L, Some(nodes[c].right.to)) < Width(nodes, L, Some(c))
  {
    assert NodeOk(nodes, L, c);
    forall i | 0 <= i < |nodes| && L.pos[i] <= L.pos[c]
      ensures nodes[i].key < k
    {
      SameRank(nodes, L, i, c);
    }
  }

  /** A key with a rank slot of its own is in no node. */
  lemma RankedAbsent<V>(nodes: seq<Node<V>>, L: Layout, k: int, p: nat)
    requires Ranked(|nodes|, L) && RankIs(nodes, L, k, p)
    ensures k !in Entries(nodes)
  {
    EntriesKeys(nodes, k);
  }

  /** The key of node `c` maps to the value of node `c`. */
  lemma FoundAt<V>(nodes: seq<Node<V>>, L: Layout, c: nat)
    requires Arranged(nodes, L) && c < |nodes|
    ensures nodes[c].key in Entries(nodes) && Entries(nodes)[nodes[c].key] == nodes[c].value
  {
    ArrangedUnique(nodes, L);
    EntriesValue(nodes, c);
  }

  /*
   * Ranks and the abstract key order.
   */

  lemma SameRank<V>(nodes: seq<Node<V>>, L: Layout, i: nat, j: nat)
    requires Ranked(|nodes|, L) && i < |nodes| && j < |nodes|
    ensures L.pos[i] == L.pos[j] ==> i == j
  {
    assert L.order[L.pos[i]] == i && L.order[L.pos[j]] == j;
  }

  /** The node one rank above `c` holds the next key. */
  lemma RankNext<V>(nodes: seq<Node<V>>, L: Layout, c: nat, j: nat)
    requires Arranged(nodes, L) && c < |nodes| && j < |nodes| && L.pos[j] == L.pos[c] + 1
    ensures IsNextKey(Entries(nodes), nodes[c].key, nodes[j].key)
  {
    FoundAt(nodes, L, j);
    forall x | x in Entries(nodes) && nodes[c].key < x
      ensures nodes[j].key <= x
    {
      EntriesKeys(nodes, x);
      var i :| 0 <= i < |nodes| && nodes[i].key == x;
      SameRank(nodes, L, i, c);
      SameRank(nodes, L, i, j);
    }
  }

  /** The node of the last rank holds the largest key. */
  lemma RankLast<V>(nodes: seq<Node<V>>, L: Layout, c: nat)
    requires Arranged(nodes, L) && c < |nodes| && L.pos[c] == |nodes| - 1
    ensures IsMaxKey(Entries(nodes), nodes[c].key)
  {
    forall x | x in Entries(nodes)
      ensures x <= nodes[c].key
    {
      EntriesKeys(nodes, x);
      var i :| 0 <= i < |nodes| && nodes[i].key == x;
      SameRank(nodes, L, i, c);
    }
  }

  /** The node of rank zero holds the smallest key. */
  lemma RankFirst<V>(nodes: seq<Node<V>>, L: Layout, c: nat)
    requires Arranged(nodes, L) && c < |nodes| && L.pos[c] == 0
    ensures IsMinKey(Entries(nodes), nodes[c].key)
  {
    FoundAt(nodes, L, c);
    forall x | x in Entries(nodes)
      ensures nodes[c].key <= x
    {
      EntriesKeys(nodes, x);
      var i :| 0 <= i < |nodes| && nodes[i].key == x;
      SameRank(nodes, L, i, c);
    }
  }
}
