/**
  The shape of a tree stated in keys alone: which key is the left child,
  and which the real right child, of which key. Two trees with the same map
  and the same pairs have the same links node for node, so `operator()`
  and `dump` cannot tell them apart.

  The lemmas here carry `_copy` through one `insert`: re-inserting a source
  node whose parent is already copied, and none of whose subtree is, links
  it below that parent on the same side.
 */
module Shape {
  import opened Bstt
  import opened Descent
  import opened Insertion

  /** The (parent key, left child key) pairs. */
  function LeftPairs<V>(nodes: seq<Node<V>>): set<(int, int)>
  {
    set i | 0 <= i < |nodes| && nodes[i].left.Some? && nodes[i].left.value < |nodes|
      :: (nodes[i].key, nodes[nodes[i].left.value].key)
  }

  /** The (parent key, right child key) pairs; a thread is not a child. */
  function RightPairs<V>(nodes: seq<Node<V>>): set<(int, int)>
  {
    set i | 0 <= i < |nodes| && nodes[i].right.Child? && nodes[i].right.to < |nodes|
      :: (nodes[i].key, nodes[nodes[i].right.to].key)
  }

  /** The pairs of `P` between keys of `K`. */
  function Within(P: set<(int, int)>, K: set<int>): set<(int, int)>
  {
    set pr | pr in P && pr.0 in K && pr.1 in K
  }

  /** `d` holds some of `s`'s keys, linked among themselves exactly as in `s`. */
  ghost predicate Mirrors<V>(d: Tree<V>, s: Tree<V>)
  {
    && Contents(d).Keys <= Contents(s).Keys
    && LeftPairs(d.nodes) == Within(LeftPairs(s.nodes), Contents(d).Keys)
    && RightPairs(d.nodes) == Within(RightPairs(s.nodes), Contents(d).Keys)
  }

  /** No key of the subtree at source node `c` is in `d` yet. */
  ghost predicate Unseen<V>(d: Tree<V>, s: Tree<V>, L: Layout, c: nat)
    requires Ranked(|s.nodes|, L) && c < |s.nodes|
  {
    forall i :: 0 <= i < |s.nodes| && L.lo[c] <= L.pos[i] < L.hi[c] ==> s.nodes[i].key !in Contents(d)
  }

  predicate ParentOf<V>(nodes: seq<Node<V>>, p: nat, c: nat)
    requires p < |nodes|
  {
    nodes[p].left == Some(c) || nodes[p].right == Child(c)
  }

  /** Where `_copy` stands before copying the subtree at `cur`: `d` mirrors
      `s`, holds nothing of that subtree, and, unless `d` is empty, already
      holds the parent of `cur`. */
  ghost predicate Ready<V>(d: Tree<V>, s: Tree<V>, L: Layout, cur: Option<nat>)
    requires Ranked(|s.nodes|, L)
  {
    && Mirrors(d, s)
    && (cur.Some? ==>
          && cur.value < |s.nodes|
          && Unseen(d, s, L, cur.value)
          && (|d.nodes| == 0 ||
              exists p :: 0 <= p < |s.nodes| && ParentOf(s.nodes, p, cur.value) && s.nodes[p].key in Contents(d)))
  }

  /** Where `_copy` stands just after inserting node `c`: `c`'s key is in
      `d`, and no other key of `c`'s subtree is yet. */
  ghost predicate OnlyTop<V>(d: Tree<V>, s: Tree<V>, L: Layout, c: nat)
    requires Ranked(|s.nodes|, L) && c < |s.nodes|
  {
    && s.nodes[c].key in Contents(d)
    && forall i :: 0 <= i < |s.nodes| && L.lo[c] <= L.pos[i] < L.hi[c] && i != c ==> s.nodes[i].key !in Contents(d)
  }

  /*
   * Reading pairs back as nodes.
   */

  lemma LeftPairAt<V>(nodes: seq<Node<V>>, x: int, y: int) returns (i: nat)
    requires (x, y) in LeftPairs(nodes)
    ensures i < |nodes| && nodes[i].key == x && nodes[i].left.Some? && nodes[i].left.value < |nodes|
    ensures nodes[nodes[i].left.value].key == y
  {
    i :| 0 <= i < |nodes| && nodes[i].left.Some? && nodes[i].left.value < |nodes|
      && (nodes[i].key, nodes[nodes[i].left.value].key) == (x, y);
  }

  lemma RightPairAt<V>(nodes: seq<Node<V>>, x: int, y: int) returns (i: nat)
    requires (x, y) in RightPairs(nodes)
    ensures i < |nodes| && nodes[i].key == x && nodes[i].right.Child? && nodes[i].right.to < |nodes|
    ensures nodes[nodes[i].right.to].key == y
  {
    i :| 0 <= i < |nodes| && nodes[i].right.Child? && nodes[i].right.to < |nodes|
      && (nodes[i].key, nodes[nodes[i].right.to].key) == (x, y);
  }

  lemma NodeKeys<V>(nodes: seq<Node<V>>)
    ensures forall m :: 0 <= m < |nodes| ==> nodes[m].key in Entries(nodes)
  {
    forall m | 0 <= m < |nodes|
      ensures nodes[m].key in Entries(nodes)
    {
      EntriesKeys(nodes, nodes[m].key);
    }
  }

  /** In a well-formed tree a key's real right child, if any, is the one
      right pair starting at that key; a null right pointer marks the
      largest key. */
  lemma RightLinkOfKey<V>(t: Tree<V>, i: nat)
    requires Valid(t) && i < |t.nodes|
    ensures t.nodes[i].right.Child? ==>
      t.nodes[i].right.to < |t.nodes| && (t.nodes[i].key, t.nodes[t.nodes[i].right.to].key) in RightPairs(t.nodes)
    ensures forall y :: (t.nodes[i].key, y) in RightPairs(t.nodes) ==>
      t.nodes[i].right.Child? && t.nodes[i].right.to < |t.nodes| && y == t.nodes[t.nodes[i].right.to].key
    ensures t.nodes[i].right.Null? ==> IsMaxKey(Contents(t), t.nodes[i].key)
  {
    var L := LayoutOf(t.nodes, t.root);
    ArrangedUnique(t.nodes, L);
    assert NodeOk(t.nodes, L, i);
    forall y | (t.nodes[i].key, y) in RightPairs(t.nodes)
      ensures t.nodes[i].right.Child? && t.nodes[i].right.to < |t.nodes| && y == t.nodes[t.nodes[i].right.to].key
    {
      var j := RightPairAt(t.nodes, t.nodes[i].key, y);
      assert j == i;
    }
    if t.nodes[i].right.Null? {
      RankLast(t.nodes, L, i);
    }
  }

  /** Every pair of `s` is between keys of `s`, so mirroring all of them
      means having the same pairs. */
  lemma MirrorsAll<V>(d: Tree<V>, s: Tree<V>)
    requires Mirrors(d, s) && Contents(d).Keys == Contents(s).Keys
    ensures LeftPairs(d.nodes) == LeftPairs(s.nodes)
    ensures RightPairs(d.nodes) == RightPairs(s.nodes)
  {
    NodeKeys(s.nodes);
    forall pr | pr in LeftPairs(s.nodes)
      ensures pr in LeftPairs(d.nodes)
    {
      var i := LeftPairAt(s.nodes, pr.0, pr.1);
    }
    forall pr | pr in RightPairs(s.nodes)
      ensures pr in RightPairs(d.nodes)
    {
      var i := RightPairAt(s.nodes, pr.0, pr.1);
    }
  }

  /** An empty tree mirrors every tree. */
  lemma MirrorsEmpty<V>(d: Tree<V>, s: Tree<V>)
    requires d.nodes == []
    ensures Mirrors(d, s)
  {
    assert Contents(d) == map[];
    assert LeftPairs(d.nodes) == {};
    assert RightPairs(d.nodes) == {};
  }

  /*
   * The two trees side by side.
   */

  /** A left child in `d` is the left child the same key has in `s`. */
  lemma LeftChildMirrored<V>(d: Tree<V>, s: Tree<V>, e: nat, p: nat)
    requires Valid(d) && Valid(s) && Mirrors(d, s)
    requires e < |d.nodes| && p < |s.nodes| && d.nodes[e].key == s.nodes[p].key
    ensures d.nodes[e].left.Some? ==>
      && d.nodes[e].left.value < |d.nodes| && s.nodes[p].left.Some? && s.nodes[p].left.value < |s.nodes|
      && d.nodes[d.nodes[e].left.value].key == s.nodes[s.nodes[p].left.value].key
  {
    if d.nodes[e].left.Some? {
      var y := d.nodes[e].left.value;
      assert (d.nodes[e].key, d.nodes[y].key) in LeftPairs(d.nodes);
      var i := LeftPairAt(s.nodes, d.nodes[e].key, d.nodes[y].key);
      ArrangedUnique(s.nodes, LayoutOf(s.nodes, s.root));
    }
  }

  /** A real right child in `d` is the right child the same key has in `s`. */
  lemma RightChildMirrored<V>(d: Tree<V>, s: Tree<V>, e: nat, p: nat)
    requires Valid(d) && Valid(s) && Mirrors(d, s)
    requires e < |d.nodes| && p < |s.nodes| && d.nodes[e].key == s.nodes[p].key
    ensures d.nodes[e].right.Child? ==>
      && d.nodes[e].right.to < |d.nodes| && s.nodes[p].right.Child? && s.nodes[p].right.to < |s.nodes|
      && d.nodes[d.nodes[e].right.to].key == s.nodes[s.nodes[p].right.to].key
  {
    if d.nodes[e].right.Child? {
      var y := d.nodes[e].right.to;
      assert (d.nodes[e].key, d.nodes[y].key) in RightPairs(d.nodes);
      var i := RightPairAt(s.nodes, d.nodes[e].key, d.nodes[y].key);
      ArrangedUnique(s.nodes, LayoutOf(s.nodes, s.root));
    }
  }

  /** Around a key `k` that is not in the tree, the gap between its nearest
      neighbours is free on one side only: the larger has a left child or
      the smaller a real right child. This is why `insert` has exactly one
      place to link a new key. */
  lemma AdjacentSlots<V>(t: Tree<V>, i: nat, j: nat, k: int)
    requires Valid(t) && i < |t.nodes| && j < |t.nodes|
    ensures (&& t.nodes[i].key < k < t.nodes[j].key
             && (forall m :: 0 <= m < |t.nodes| && t.nodes[m].key < k ==> t.nodes[m].key <= t.nodes[i].key)
             && (forall m :: 0 <= m < |t.nodes| && k < t.nodes[m].key ==> t.nodes[j].key <= t.nodes[m].key)
             && (forall m :: 0 <= m < |t.nodes| ==> t.nodes[m].key != k))
            ==> t.nodes[j].left.Some? || t.nodes[i].right.Child?
  {
    var nodes := t.nodes;
    var L := LayoutOf(nodes, t.root);
    if && nodes[i].key < k < nodes[j].key
       && (forall m :: 0 <= m < |nodes| && nodes[m].key < k ==> nodes[m].key <= nodes[i].key)
       && (forall m :: 0 <= m < |nodes| && k < nodes[m].key ==> nodes[j].key <= nodes[m].key)
       && (forall m :: 0 <= m < |nodes| ==> nodes[m].key != k)
    {
      SameRank(nodes, L, i, j);
      assert L.pos[i] < L.pos[j];
      var m := L.order[L.pos[i] + 1];
      assert L.pos[m] == L.pos[i] + 1;
      SameRank(nodes, L, m, j);
      assert L.pos[j] == L.pos[i] + 1;
      assert NodeOk(nodes, L, i);
      if nodes[i].right.Thread? {
        SameRank(nodes, L, nodes[i].right.to, j);
      }
    }
  }

  /*
   * One `insert` seen as pairs.
   */

  /** Linking the new node as the left child of node `a` adds exactly one
      left pair and leaves the right pairs alone: the new node's thread is
      not a child. */
  lemma RelinkLeftPairs<V>(nodes: seq<Node<V>>, nodes': seq<Node<V>>, a: nat, key: int)
    requires |nodes'| == |nodes| + 1 && a < |nodes| && LinksInRange(nodes)
    requires Relinked(nodes, nodes', a, key) && key < nodes[a].key
    requires nodes'[|nodes|].key == key && nodes'[|nodes|].left.None?
    ensures LeftPairs(nodes') == LeftPairs(nodes) + {(nodes[a].key, key)}
    ensures RightPairs(nodes') == RightPairs(nodes)
  {
  }

  /** Making the new node the real right child of node `a` adds exactly one
      right pair; the new node takes over `a`'s thread, which is no child. */
  lemma RelinkRightPairs<V>(nodes: seq<Node<V>>, nodes': seq<Node<V>>, a: nat, key: int)
    requires |nodes'| == |nodes| + 1 && a < |nodes| && LinksInRange(nodes)
    requires Relinked(nodes, nodes', a, key) && nodes[a].key < key
    requires nodes'[|nodes|].key == key && nodes'[|nodes|].left.None?
    ensures RightPairs(nodes') == RightPairs(nodes) + {(nodes[a].key, key)}
    ensures LeftPairs(nodes') == LeftPairs(nodes)
  {
  }

  /*
   * The source side: what a newly copied key brings into `Within`.
   */

  /** The children of `c` rank inside `c`'s range, on either side of `c`. */
  lemma ChildrenWithin<V>(nodes: seq<Node<V>>, L: Layout, c: nat)
    requires Arranged(nodes, L) && c < |nodes|
    ensures L.lo[c] <= L.pos[c] < L.hi[c]
    ensures nodes[c].left.Some? ==>
      nodes[c].left.value < |nodes| && L.lo[c] <= L.pos[nodes[c].left.value] < L.pos[c]
    ensures nodes[c].right.Child? ==>
      nodes[c].right.to < |nodes| && L.pos[c] < L.pos[nodes[c].right.to] < L.hi[c]
  {
    assert NodeOk(nodes, L, c);
    if nodes[c].left.Some? {
      assert NodeOk(nodes, L, nodes[c].left.value);
    }
    if nodes[c].right.Child? {
      assert NodeOk(nodes, L, nodes[c].right.to);
    }
  }

  /** Adding the left child `c` of `p` to the copied keys adds the one left
      pair `(p, c)`, provided no key of `c`'s subtree is among them. */
  lemma WithinLeftChild<V>(s: Tree<V>, L: Layout, p: nat, c: nat, K: set<int>)
    requires Shaped(s.nodes, s.root, L) && p < |s.nodes| && c < |s.nodes| && s.nodes[p].left == Some(c)
    requires s.nodes[p].key in K
    requires forall i :: 0 <= i < |s.nodes| && L.lo[c] <= L.pos[i] < L.hi[c] ==> s.nodes[i].key !in K
    ensures Within(LeftPairs(s.nodes), K + {s.nodes[c].key})
      == Within(LeftPairs(s.nodes), K) + {(s.nodes[p].key, s.nodes[c].key)}
  {
    var sn := s.nodes;
    var ck := sn[c].key;
    ArrangedUnique(sn, L);
    ChildrenWithin(sn, L, c);
    assert (sn[p].key, ck) in LeftPairs(sn);
    forall pr | pr in LeftPairs(sn) && pr.0 in K + {ck} && pr.1 in K + {ck} && !(pr.0 in K && pr.1 in K)
      ensures pr == (sn[p].key, ck)
    {
      var i := LeftPairAt(sn, pr.0, pr.1);
      ChildrenWithin(sn, L, i);
      assert NodeOk(sn, L, i);
      assert NodeOk(sn, L, p);
      SameRank(sn, L, i, p);
    }
  }

  /** Adding the real right child `c` of `p` to the copied keys adds the one
      right pair `(p, c)`, provided no key of `c`'s subtree is among them. */
  lemma WithinRightChild<V>(s: Tree<V>, L: Layout, p: nat, c: nat, K: set<int>)
    requires Shaped(s.nodes, s.root, L) && p < |s.nodes| && c < |s.nodes| && s.nodes[p].right == Child(c)
    requires s.nodes[p].key in K
    requires forall i :: 0 <= i < |s.nodes| && L.lo[c] <= L.pos[i] < L.hi[c] ==> s.nodes[i].key !in K
    ensures Within(RightPairs(s.nodes), K + {s.nodes[c].key})
      == Within(RightPairs(s.nodes), K) + {(s.nodes[p].key, s.nodes[c].key)}
  {
    var sn := s.nodes;
    var ck := sn[c].key;
    ArrangedUnique(sn, L);
    ChildrenWithin(sn, L, c);
    assert (sn[p].key, ck) in RightPairs(sn);
    forall pr | pr in RightPairs(sn) && pr.0 in K + {ck} && pr.1 in K + {ck} && !(pr.0 in K && pr.1 in K)
      ensures pr == (sn[p].key, ck)
    {
      var i := RightPairAt(sn, pr.0, pr.1);
      ChildrenWithin(sn, L, i);
      assert NodeOk(sn, L, i);
      assert NodeOk(sn, L, p);
      SameRank(sn, L, i, p);
    }
  }

  /** Adding `c` to the copied keys adds no left pair when `c` is not the
      left child of a copied key and none of its subtree is copied. */
  lemma WithinNoLeftParent<V>(s: Tree<V>, L: Layout, c: nat, K: set<int>)
    requires Shaped(s.nodes, s.root, L) && c < |s.nodes|
    requires forall i :: 0 <= i < |s.nodes| && L.lo[c] <= L.pos[i] < L.hi[c] ==> s.nodes[i].key !in K
    requires forall i :: 0 <= i < |s.nodes| && s.nodes[i].left == Some(c) ==> s.nodes[i].key !in K
    ensures Within(LeftPairs(s.nodes), K + {s.nodes[c].key}) == Within(LeftPairs(s.nodes), K)
  {
    var sn := s.nodes;
    var ck := sn[c].key;
    ArrangedUnique(sn, L);
    ChildrenWithin(sn, L, c);
    forall pr | pr in LeftPairs(sn) && pr.0 in K + {ck} && pr.1 in K + {ck}
      ensures pr.0 in K && pr.1 in K
    {
      var i := LeftPairAt(sn, pr.0, pr.1);
      ChildrenWithin(sn, L, i);
    }
  }

  /** Adding `c` to the copied keys adds no right pair when `c` is not the
      real right child of a copied key and none of its subtree is copied. */
  lemma WithinNoRightParent<V>(s: Tree<V>, L: Layout, c: nat, K: set<int>)
    requires Shaped(s.nodes, s.root, L) && c < |s.nodes|
    requires forall i :: 0 <= i < |s.nodes| && L.lo[c] <= L.pos[i] < L.hi[c] ==> s.nodes[i].key !in K
    requires forall i :: 0 <= i < |s.nodes| && s.nodes[i].right == Child(c) ==> s.nodes[i].key !in K
    ensures Within(RightPairs(s.nodes), K + {s.nodes[c].key}) == Within(RightPairs(s.nodes), K)
  {
    var sn := s.nodes;
    var ck := sn[c].key;
    ArrangedUnique(sn, L);
    ChildrenWithin(sn, L, c);
    forall pr | pr in RightPairs(sn) && pr.0 in K + {ck} && pr.1 in K + {ck}
      ensures pr.0 in K && pr.1 in K
    {
      var i := RightPairAt(sn, pr.0, pr.1);
      ChildrenWithin(sn, L, i);
    }
  }

  /*
   * One step of `_copy`.
   */

  /** When `c` is the left child of `p` and nothing of `c`'s subtree is
      copied, no copied key lies strictly between `c`'s key and `p`'s. */
  lemma CopiedAbove<V>(d: Tree<V>, s: Tree<V>, L: Layout, p: nat, c: nat)
    requires Shaped(s.nodes, s.root, L) && p < |s.nodes| && c < |s.nodes| && s.nodes[p].left == Some(c)
    requires Contents(d).Keys <= Contents(s).Keys && Unseen(d, s, L, c)
    ensures s.nodes[c].key < s.nodes[p].key
    ensures forall m :: 0 <= m < |d.nodes| && s.nodes[c].key < d.nodes[m].key ==> s.nodes[p].key <= d.nodes[m].key
  {
    var sn, dn := s.nodes, d.nodes;
    ChildrenWithin(sn, L, c);
    assert NodeOk(sn, L, p);
    NodeKeys(dn);
    forall m | 0 <= m < |dn| && sn[c].key < dn[m].key
      ensures sn[p].key <= dn[m].key
    {
      EntriesKeys(sn, dn[m].key);
      var i :| 0 <= i < |sn| && sn[i].key == dn[m].key;
      SameRank(sn, L, i, c);
      SameRank(sn, L, i, p);
    }
  }

  /** When `c` is the real right child of `p` and nothing of `c`'s subtree
      is copied, no copied key lies strictly between `p`'s key and `c`'s. */
  lemma CopiedBelow<V>(d: Tree<V>, s: Tree<V>, L: Layout, p: nat, c: nat)
    requires Shaped(s.nodes, s.root, L) && p < |s.nodes| && c < |s.nodes| && s.nodes[p].right == Child(c)
    requires Contents(d).Keys <= Contents(s).Keys && Unseen(d, s, L, c)
    ensures s.nodes[p].key < s.nodes[c].key
    ensures forall m :: 0 <= m < |d.nodes| && d.nodes[m].key < s.nodes[c].key ==> d.nodes[m].key <= s.nodes[p].key
  {
    var sn, dn := s.nodes, d.nodes;
    ChildrenWithin(sn, L, c);
    assert NodeOk(sn, L, p);
    NodeKeys(dn);
    forall m | 0 <= m < |dn| && dn[m].key < sn[c].key
      ensures dn[m].key <= sn[p].key
    {
      EntriesKeys(sn, dn[m].key);
      var i :| 0 <= i < |sn| && sn[i].key == dn[m].key;
      SameRank(sn, L, i, c);
      SameRank(sn, L, i, p);
    }
  }

  /** The copied node holding a key, found through the map. */
  lemma CopiedNode<V>(d: Tree<V>, k: int) returns (e: nat)
    requires k in Contents(d)
    ensures e < |d.nodes| && d.nodes[e].key == k
  {
    EntriesKeys(d.nodes, k);
    e :| 0 <= e < |d.nodes| && d.nodes[e].key == k;
  }

  /** The left child `c` of a copied `p`, with nothing of its subtree copied,
      has no copied right parent: that parent and `p` would be neighbours
      around `c`'s key with both slots between them free. */
  lemma NoCopiedRightParent<V>(d: Tree<V>, s: Tree<V>, L: Layout, p: nat, c: nat)
    requires Valid(d) && Valid(s) && Shaped(s.nodes, s.root, L)
    requires p < |s.nodes| && c < |s.nodes| && s.nodes[p].left == Some(c)
    requires Mirrors(d, s) && s.nodes[p].key in Contents(d) && Unseen(d, s, L, c)
    ensures forall i :: 0 <= i < |s.nodes| && s.nodes[i].right == Child(c) ==> s.nodes[i].key !in Contents(d)
  {
    var sn, dn := s.nodes, d.nodes;
    var ck := sn[c].key;
    ChildrenWithin(sn, L, c);
    CopiedAbove(d, s, L, p, c);
    var e := CopiedNode(d, sn[p].key);
    LeftChildMirrored(d, s, e, p);
    NodeKeys(dn);
    forall i | 0 <= i < |sn| && sn[i].right == Child(c)
      ensures sn[i].key !in Contents(d)
    {
      if sn[i].key in Contents(d) {
        var f := CopiedNode(d, sn[i].key);
        CopiedBelow(d, s, L, i, c);
        RightChildMirrored(d, s, f, i);
        AdjacentSlots(d, f, e, ck);
      }
    }
  }

  /** The real right child `c` of a copied `p`, with nothing of its subtree
      copied, has no copied left parent. */
  lemma NoCopiedLeftParent<V>(d: Tree<V>, s: Tree<V>, L: Layout, p: nat, c: nat)
    requires Valid(d) && Valid(s) && Shaped(s.nodes, s.root, L)
    requires p < |s.nodes| && c < |s.nodes| && s.nodes[p].right == Child(c)
    requires Mirrors(d, s) && s.nodes[p].key in Contents(d) && Unseen(d, s, L, c)
    ensures forall i :: 0 <= i < |s.nodes| && s.nodes[i].left == Some(c) ==> s.nodes[i].key !in Contents(d)
  {
    var sn, dn := s.nodes, d.nodes;
    var ck := sn[c].key;
    ChildrenWithin(sn, L, c);
    CopiedBelow(d, s, L, p, c);
    var e := CopiedNode(d, sn[p].key);
    RightChildMirrored(d, s, e, p);
    NodeKeys(dn);
    forall i | 0 <= i < |sn| && sn[i].left == Some(c)
      ensures sn[i].key !in Contents(d)
    {
      if sn[i].key in Contents(d) {
        var f := CopiedNode(d, sn[i].key);
        CopiedAbove(d, s, L, i, c);
        LeftChildMirrored(d, s, f, i);
        AdjacentSlots(d, e, f, ck);
      }
    }
  }

  /** `insert` links the left child `c` of a copied `p` below `p`'s copy. */
  lemma LinkedBelowLeft<V>(d: Tree<V>, d': Tree<V>, s: Tree<V>, L: Layout, p: nat, c: nat) returns (a: nat)
    requires Valid(d) && Valid(s) && Shaped(s.nodes, s.root, L)
    requires p < |s.nodes| && c < |s.nodes| && s.nodes[p].left == Some(c)
    requires Mirrors(d, s) && s.nodes[p].key in Contents(d) && Unseen(d, s, L, c)
    requires Linked(d, d', s.nodes[c].key, s.nodes[c].value)
    ensures a < |d.nodes| && |d'.nodes| == |d.nodes| + 1
    ensures Relinked(d.nodes, d'.nodes, a, s.nodes[c].key) && d.nodes[a].key == s.nodes[p].key
    ensures s.nodes[c].key < s.nodes[p].key
  {
    var sn, dn := s.nodes, d.nodes;
    var ck := sn[c].key;
    ChildrenWithin(sn, L, c);
    assert ck !in Contents(d);
    CopiedAbove(d, s, L, p, c);
    var e := CopiedNode(d, sn[p].key);
    ArrangedUnique(dn, LayoutOf(dn, d.root));
    NodeKeys(dn);
    assert d.root.Some?;
    a :| 0 <= a < |dn| && Relinked(dn, d'.nodes, a, ck);
    LeftChildMirrored(d, s, e, p);
    AdjacentSlots(d, a, e, ck);
  }

  /** `insert` links the real right child `c` of a copied `p` below `p`'s copy. */
  lemma LinkedBelowRight<V>(d: Tree<V>, d': Tree<V>, s: Tree<V>, L: Layout, p: nat, c: nat) returns (a: nat)
    requires Valid(d) && Valid(s) && Shaped(s.nodes, s.root, L)
    requires p < |s.nodes| && c < |s.nodes| && s.nodes[p].right == Child(c)
    requires Mirrors(d, s) && s.nodes[p].key in Contents(d) && Unseen(d, s, L, c)
    requires Linked(d, d', s.nodes[c].key, s.nodes[c].value)
    ensures a < |d.nodes| && |d'.nodes| == |d.nodes| + 1
    ensures Relinked(d.nodes, d'.nodes, a, s.nodes[c].key) && d.nodes[a].key == s.nodes[p].key
    ensures s.nodes[p].key < s.nodes[c].key
  {
    var sn, dn := s.nodes, d.nodes;
    var ck := sn[c].key;
    ChildrenWithin(sn, L, c);
    assert ck !in Contents(d);
    CopiedBelow(d, s, L, p, c);
    var e := CopiedNode(d, sn[p].key);
    ArrangedUnique(dn, LayoutOf(dn, d.root));
    NodeKeys(dn);
    assert d.root.Some?;
    a :| 0 <= a < |dn| && Relinked(dn, d'.nodes, a, ck);
    RightChildMirrored(d, s, e, p);
    AdjacentSlots(d, e, a, ck);
  }

  /** One new key `k` joins `d`, with exactly one new pair `pr` on one side;
      if that pair is the only one `k` adds among `s`'s pairs on that side,
      and `k` adds none on the other side, `d'` still mirrors `s`. */
  lemma MirrorsGrow<V>(d: Tree<V>, d': Tree<V>, s: Tree<V>, k: int, pr: (int, int), onLeft: bool)
    requires Mirrors(d, s) && k in Contents(s)
    requires Contents(d').Keys == Contents(d).Keys + {k}
    requires onLeft ==>
      && LeftPairs(d'.nodes) == LeftPairs(d.nodes) + {pr} && RightPairs(d'.nodes) == RightPairs(d.nodes)
      && Within(LeftPairs(s.nodes), Contents(d').Keys) == Within(LeftPairs(s.nodes), Contents(d).Keys) + {pr}
      && Within(RightPairs(s.nodes), Contents(d').Keys) == Within(RightPairs(s.nodes), Contents(d).Keys)
    requires !onLeft ==>
      && RightPairs(d'.nodes) == RightPairs(d.nodes) + {pr} && LeftPairs(d'.nodes) == LeftPairs(d.nodes)
      && Within(RightPairs(s.nodes), Contents(d').Keys) == Within(RightPairs(s.nodes), Contents(d).Keys) + {pr}
      && Within(LeftPairs(s.nodes), Contents(d').Keys) == Within(LeftPairs(s.nodes), Contents(d).Keys)
    ensures Mirrors(d', s)
  {
  }

  /** Re-inserting the left child `c` of an already copied `p` keeps the
      copy mirroring the source: the one new pair is `(p, c)` on the left. */
  lemma MirrorLeft<V>(d: Tree<V>, d': Tree<V>, s: Tree<V>, L: Layout, p: nat, c: nat)
    requires Valid(d) && Valid(s) && Shaped(s.nodes, s.root, L)
    requires p < |s.nodes| && c < |s.nodes| && s.nodes[p].left == Some(c)
    requires Mirrors(d, s) && s.nodes[p].key in Contents(d) && Unseen(d, s, L, c)
    requires Linked(d, d', s.nodes[c].key, s.nodes[c].value)
    requires Contents(d') == Contents(d)[s.nodes[c].key := s.nodes[c].value]
    ensures Mirrors(d', s)
  {
    var K := Contents(d).Keys;
    var a := LinkedBelowLeft(d, d', s, L, p, c);
    NoCopiedRightParent(d, s, L, p, c);
    RelinkLeftPairs(d.nodes, d'.nodes, a, s.nodes[c].key);
    WithinLeftChild(s, L, p, c, K);
    WithinNoRightParent(s, L, c, K);
    FoundAt(s.nodes, L, c);
    MirrorsGrow(d, d', s, s.nodes[c].key, (s.nodes[p].key, s.nodes[c].key), true);
  }

  /** Re-inserting the real right child `c` of an already copied `p` keeps
      the copy mirroring the source: the one new pair is `(p, c)` on the right. */
  lemma MirrorRight<V>(d: Tree<V>, d': Tree<V>, s: Tree<V>, L: Layout, p: nat, c: nat)
    requires Valid(d) && Valid(s) && Shaped(s.nodes, s.root, L)
    requires p < |s.nodes| && c < |s.nodes| && s.nodes[p].right == Child(c)
    requires Mirrors(d, s) && s.nodes[p].key in Contents(d) && Unseen(d, s, L, c)
    requires Linked(d, d', s.nodes[c].key, s.nodes[c].value)
    requires Contents(d') == Contents(d)[s.nodes[c].key := s.nodes[c].value]
    ensures Mirrors(d', s)
  {
    var K := Contents(d).Keys;
    var a := LinkedBelowRight(d, d', s, L, p, c);
    NoCopiedLeftParent(d, s, L, p, c);
    RelinkRightPairs(d.nodes, d'.nodes, a, s.nodes[c].key);
    WithinRightChild(s, L, p, c, K);
    WithinNoLeftParent(s, L, c, K);
    FoundAt(s.nodes, L, c);
    MirrorsGrow(d, d', s, s.nodes[c].key, (s.nodes[p].key, s.nodes[c].key), false);
  }

  /** The first key copied into an empty tree becomes a lone root, which
      mirrors the source: no key is its own child. */
  lemma MirrorFirst<V>(d: Tree<V>, d': Tree<V>, s: Tree<V>, c: nat)
    requires Valid(d) && Valid(s) && |d.nodes| == 0 && c < |s.nodes|
    requires Linked(d, d', s.nodes[c].key, s.nodes[c].value)
    requires Contents(d') == Contents(d)[s.nodes[c].key := s.nodes[c].value]
    ensures Mirrors(d', s)
  {
    var sn := s.nodes;
    var ck := sn[c].key;
    var L := LayoutOf(sn, s.root);
    ArrangedUnique(sn, L);
    NodeKeys(sn);
    var Ld := LayoutOf(d.nodes, d.root);
    assert d.root.None?;
    assert Contents(d) == map[];
    assert LeftPairs(d'.nodes) == {};
    assert RightPairs(d'.nodes) == {};
    forall pr | pr in LeftPairs(sn)
      ensures pr.0 != ck || pr.1 != ck
    {
      var i := LeftPairAt(sn, pr.0, pr.1);
      ChildrenWithin(sn, L, i);
    }
    forall pr | pr in RightPairs(sn)
      ensures pr.0 != ck || pr.1 != ck
    {
      var i := RightPairAt(sn, pr.0, pr.1);
      ChildrenWithin(sn, L, i);
    }
  }

  /** `insert` of the next node in `_copy`'s preorder keeps the copy
      mirroring the source. */
  lemma MirrorStep<V>(d: Tree<V>, d': Tree<V>, s: Tree<V>, L: Layout, c: nat)
    requires Valid(d) && Valid(s) && Shaped(s.nodes, s.root, L) && c < |s.nodes|
    requires Ready(d, s, L, Some(c))
    requires Linked(d, d', s.nodes[c].key, s.nodes[c].value)
    requires Contents(d') == Contents(d)[s.nodes[c].key := s.nodes[c].value]
    ensures Mirrors(d', s)
  {
    if |d.nodes| == 0 {
      MirrorFirst(d, d', s, c);
    } else {
      var p :| 0 <= p < |s.nodes| && ParentOf(s.nodes, p, c) && s.nodes[p].key in Contents(d);
      if s.nodes[p].left == Some(c) {
        MirrorLeft(d, d', s, L, p, c);
      } else {
        MirrorRight(d, d', s, L, p, c);
      }
    }
  }
}
