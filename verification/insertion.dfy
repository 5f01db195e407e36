/**
  `insert`: the descent, then the thread fix-up that attaches the new node.
 */
module Insertion {
  import opened Bstt
  import opened Descent

  /** The fall-through below a null left pointer: `prev.Left` becomes the new
      node, whose thread leads back to `prev`. */
  function AttachLeft<V>(nodes: seq<Node<V>>, c: nat, key: int, value: V): seq<Node<V>>
    requires c < |nodes|
  {
    nodes[c := nodes[c].(left := Some(|nodes|))] + [Node(key, value, None, Thread(c))]
  }

  /** The fall-through at a thread: the new node takes over `prev`'s thread
      (or null) and becomes `prev`'s real right child. */
  function AttachRight<V>(nodes: seq<Node<V>>, c: nat, key: int, value: V): seq<Node<V>>
    requires c < |nodes|
  {
    nodes[c := nodes[c].(right := Child(|nodes|))] + [Node(key, value, None, nodes[c].right)]
  }

  /*
   * The layout after a new node takes rank `p`: ranks from `p` on move up by
   * one. A subtree boundary equal to `p` moves too when `inclusive` holds; it
   * does for an attachment on the right (the subtrees ending just before `p`
   * gain the new node) and not on the left (those subtrees stay put).
   */

  ghost function Bump(x: nat, p: nat, inclusive: bool): nat
  {
    if p < x || (inclusive && p == x) then x + 1 else x
  }

  ghost function Grow(L: Layout, n: nat, p: nat, inclusive: bool): (G: Layout)
    requires Ranked(n, L) && p <= n
    ensures |G.order| == |G.pos| == |G.lo| == |G.hi| == n + 1
  {
    Layout(
      seq(n + 1, q requires 0 <= q < n + 1 => if q < p then L.order[q] else if q == p then n else L.order[q - 1]),
      seq(n + 1, i requires 0 <= i < n + 1 => if i == n then p else Bump(L.pos[i], p, true)),
      seq(n + 1, i requires 0 <= i < n + 1 => if i == n then p else Bump(L.lo[i], p, inclusive)),
      seq(n + 1, i requires 0 <= i < n + 1 => if i == n then p + 1 else Bump(L.hi[i], p, inclusive)))
  }

  lemma GrowRanked(L: Layout, n: nat, p: nat, inclusive: bool)
    requires Ranked(n, L) && p <= n
    ensures Ranked(n + 1, Grow(L, n, p, inclusive))
  {
    var G := Grow(L, n, p, inclusive);
    forall i | 0 <= i < n + 1
      ensures G.pos[i] < n + 1 && G.order[G.pos[i]] == i
    {
      if i < n {
        assert L.order[L.pos[i]] == i;
      }
    }
    forall q | 0 <= q < n + 1
      ensures G.order[q] < n + 1 && G.pos[G.order[q]] == q
    {
      if q < p {
        assert L.pos[L.order[q]] == q;
      } else if q > p {
        assert L.pos[L.order[q - 1]] == q - 1;
      }
    }
  }

  /** The new key keeps keys increasing with rank when it sits at its rank slot. */
  lemma GrowKeys<V>(nodes: seq<Node<V>>, L: Layout, N: seq<Node<V>>, p: nat, inclusive: bool, key: int)
    requires Arranged(nodes, L) && p <= |nodes| && RankIs(nodes, L, key, p)
    requires |N| == |nodes| + 1 && N[|nodes|].key == key
    requires forall i :: 0 <= i < |nodes| ==> N[i].key == nodes[i].key
    ensures KeysFollowRanks(N, Grow(L, |nodes|, p, inclusive))
  {
    var n := |nodes|;
    var G := Grow(L, n, p, inclusive);
    forall i, j | 0 <= i < n + 1 && 0 <= j < n + 1 && G.pos[i] < G.pos[j]
      ensures N[i].key < N[j].key
    {
      if i < n && j < n {
        assert L.pos[i] < L.pos[j];
      }
    }
  }

  lemma AttachLeftArranged<V>(nodes: seq<Node<V>>, L: Layout, c: nat, key: int, value: V)
    requires Arranged(nodes, L) && c < |nodes| && nodes[c].left.None?
    requires RankIs(nodes, L, key, L.pos[c])
    ensures Arranged(AttachLeft(nodes, c, key, value), Grow(L, |nodes|, L.pos[c], false))
  {
    var n := |nodes|;
    var p := L.pos[c];
    var N := AttachLeft(nodes, c, key, value);
    var G := Grow(L, n, p, false);
    GrowRanked(L, n, p, false);
    GrowKeys(nodes, L, N, p, false, key);
    forall i | 0 <= i < n + 1
      ensures NodeOk(N, G, i)
    {
      AttachLeftNodeOk(nodes, L, c, key, value, i);
    }
  }

  lemma AttachLeftNodeOk<V>(nodes: seq<Node<V>>, L: Layout, c: nat, key: int, value: V, i: nat)
    requires Arranged(nodes, L) && c < |nodes| && nodes[c].left.None?
    requires i <= |nodes|
    ensures Ranked(|nodes| + 1, Grow(L, |nodes|, L.pos[c], false))
    ensures NodeOk(AttachLeft(nodes, c, key, value), Grow(L, |nodes|, L.pos[c], false), i)
  {
    if i == |nodes| {
      AttachLeftNewNodeOk(nodes, L, c, key, value, i);
    } else if i == c {
      AttachLeftLinkedNodeOk(nodes, L, c, key, value, i);
    } else {
      AttachLeftOtherNodeOk(nodes, L, c, key, value, i);
    }
  }

  /** The appended node's own links. */
  lemma AttachLeftNewNodeOk<V>(nodes: seq<Node<V>>, L: Layout, c: nat, key: int, value: V, i: nat)
    requires Arranged(nodes, L) && c < |nodes| && nodes[c].left.None?
    requires i == |nodes|
    ensures Ranked(|nodes| + 1, Grow(L, |nodes|, L.pos[c], false))
    ensures NodeOk(AttachLeft(nodes, c, key, value), Grow(L, |nodes|, L.pos[c], false), i)
  {
    var n := |nodes|;
    var p := L.pos[c];
    var N := AttachLeft(nodes, c, key, value);
    var G := Grow(L, n, p, false);
    GrowRanked(L, n, p, false);
    assert NodeOk(nodes, L, c);
    assert N[i] == Node(key, value, None, Thread(c));
    assert G.pos[i] == p && G.lo[i] == p && G.hi[i] == p + 1;
    assert G.pos[c] == p + 1;
  }

  /** The node the new one is linked under. */
  lemma AttachLeftLinkedNodeOk<V>(nodes: seq<Node<V>>, L: Layout, c: nat, key: int, value: V, i: nat)
    requires Arranged(nodes, L) && c < |nodes| && nodes[c].left.None?
    requires i == c
    ensures Ranked(|nodes| + 1, Grow(L, |nodes|, L.pos[c], false))
    ensures NodeOk(AttachLeft(nodes, c, key, value), Grow(L, |nodes|, L.pos[c], false), i)
  {
    var n := |nodes|;
    var p := L.pos[c];
    var N := AttachLeft(nodes, c, key, value);
    var G := Grow(L, n, p, false);
    GrowRanked(L, n, p, false);
    assert NodeOk(nodes, L, c);
    assert N[i] == nodes[c].(left := Some(n));
    assert G.pos[i] == p + 1 && G.lo[i] == p && G.lo[n] == p && G.hi[n] == p + 1;
    assert G.hi[i] == Bump(L.hi[i], p, false);
    match nodes[c].right {
      case Child(j) =>
        assert G.lo[j] == Bump(L.lo[j], p, false);
        assert G.hi[j] == Bump(L.hi[j], p, false);
      case Thread(j) =>
        assert G.pos[j] == Bump(L.pos[j], p, true);
      case Null =>
    }
  }

  /** Every other node keeps its links; only ranks move. */
  lemma AttachLeftOtherNodeOk<V>(nodes: seq<Node<V>>, L: Layout, c: nat, key: int, value: V, i: nat)
    requires Arranged(nodes, L) && c < |nodes| && nodes[c].left.None?
    requires i < |nodes| && i != c
    ensures Ranked(|nodes| + 1, Grow(L, |nodes|, L.pos[c], false))
    ensures NodeOk(AttachLeft(nodes, c, key, value), Grow(L, |nodes|, L.pos[c], false), i)
  {
    var n := |nodes|;
    var p := L.pos[c];
    var N := AttachLeft(nodes, c, key, value);
    var G := Grow(L, n, p, false);
    GrowRanked(L, n, p, false);
    assert NodeOk(nodes, L, c);
    assert NodeOk(nodes, L, i);
    assert N[i] == nodes[i];
    assert L.pos[i] != p by {
      assert L.order[L.pos[i]] == i && L.order[L.pos[c]] == c;
    }
    assert G.pos[i] == Bump(L.pos[i], p, true);
    assert G.lo[i] == Bump(L.lo[i], p, false);
    assert G.hi[i] == Bump(L.hi[i], p, false);
    match nodes[i].left {
      case Some(j) =>
        assert G.lo[j] == Bump(L.lo[j], p, false);
        assert G.hi[j] == Bump(L.hi[j], p, false);
      case None =>
    }
    match nodes[i].right {
      case Child(j) =>
        assert G.lo[j] == Bump(L.lo[j], p, false);
        assert G.hi[j] == Bump(L.hi[j], p, false);
      case Thread(j) =>
        assert j != c;
        assert L.pos[j] != p by {
          assert L.order[L.pos[j]] == j;
        }
        assert G.pos[j] == Bump(L.pos[j], p, true);
        assert N[j].left == nodes[j].left;
      case Null =>
    }
  }

  lemma AttachRightArranged<V>(nodes: seq<Node<V>>, L: Layout, c: nat, key: int, value: V)
    requires Arranged(nodes, L) && c < |nodes| && !nodes[c].right.Child?
    requires RankIs(nodes, L, key, L.pos[c] + 1)
    ensures Arranged(AttachRight(nodes, c, key, value), Grow(L, |nodes|, L.pos[c] + 1, true))
  {
    var n := |nodes|;
    var p := L.pos[c] + 1;
    var N := AttachRight(nodes, c, key, value);
    var G := Grow(L, n, p, true);
    GrowRanked(L, n, p, true);
    GrowKeys(nodes, L, N, p, true, key);
    forall i | 0 <= i < n + 1
      ensures NodeOk(N, G, i)
    {
      AttachRightNodeOk(nodes, L, c, p, key, value, i);
    }
  }

  lemma AttachRightNodeOk<V>(nodes: seq<Node<V>>, L: Layout, c: nat, p: nat, key: int, value: V, i: nat)
    requires Arranged(nodes, L) && c < |nodes| && !nodes[c].right.Child?
    requires p == L.pos[c] + 1 <= |nodes|
    requires i <= |nodes|
    ensures Ranked(|nodes| + 1, Grow(L, |nodes|, p, true))
    ensures NodeOk(AttachRight(nodes, c, key, value), Grow(L, |nodes|, p, true), i)
  {
    if i == |nodes| {
      AttachRightNewNodeOk(nodes, L, c, p, key, value, i);
    } else if i == c {
      AttachRightLinkedNodeOk(nodes, L, c, p, key, value, i);
    } else {
      AttachRightOtherNodeOk(nodes, L, c, p, key, value, i);
    }
  }

  /** The appended node's own links. */
  lemma AttachRightNewNodeOk<V>(nodes: seq<Node<V>>, L: Layout, c: nat, p: nat, key: int, value: V, i: nat)
    requires Arranged(nodes, L) && c < |nodes| && !nodes[c].right.Child?
    requires p == L.pos[c] + 1 <= |nodes|
    requires i == |nodes|
    ensures Ranked(|nodes| + 1, Grow(L, |nodes|, p, true))
    ensures NodeOk(AttachRight(nodes, c, key, value), Grow(L, |nodes|, p, true), i)
  {
    var n := |nodes|;
    assert NodeOk(nodes, L, c);
    var N := AttachRight(nodes, c, key, value);
    var G := Grow(L, n, p, true);
    GrowRanked(L, n, p, true);
    assert N[i] == Node(key, value, None, nodes[c].right);
    assert G.pos[i] == p && G.lo[i] == p && G.hi[i] == p + 1;
    match nodes[c].right {
      case Thread(j) =>
        assert G.pos[j] == Bump(L.pos[j], p, true);
        assert N[j].left.Some?;
      case Null =>
      case Child(_) =>
    }
  }

  /** The node the new one is linked under. */
  lemma AttachRightLinkedNodeOk<V>(nodes: seq<Node<V>>, L: Layout, c: nat, p: nat, key: int, value: V, i: nat)
    requires Arranged(nodes, L) && c < |nodes| && !nodes[c].right.Child?
    requires p == L.pos[c] + 1 <= |nodes|
    requires i == c
    ensures Ranked(|nodes| + 1, Grow(L, |nodes|, p, true))
    ensures NodeOk(AttachRight(nodes, c, key, value), Grow(L, |nodes|, p, true), i)
  {
    var n := |nodes|;
    assert NodeOk(nodes, L, c);
    var N := AttachRight(nodes, c, key, value);
    var G := Grow(L, n, p, true);
    GrowRanked(L, n, p, true);
    assert N[i] == nodes[c].(right := Child(n));
    assert G.pos[i] == p - 1 && G.lo[i] == L.lo[c] && G.hi[i] == p + 1;
    assert G.lo[n] == p && G.hi[n] == p + 1;
    match nodes[c].left {
      case Some(j) =>
        assert G.lo[j] == Bump(L.lo[j], p, true);
        assert G.hi[j] == Bump(L.hi[j], p, true);
      case None =>
    }
  }

  /** Every other node keeps its links; only ranks move. */
  lemma AttachRightOtherNodeOk<V>(nodes: seq<Node<V>>, L: Layout, c: nat, p: nat, key: int, value: V, i: nat)
    requires Arranged(nodes, L) && c < |nodes| && !nodes[c].right.Child?
    requires p == L.pos[c] + 1 <= |nodes|
    requires i < |nodes| && i != c
    ensures Ranked(|nodes| + 1, Grow(L, |nodes|, p, true))
    ensures NodeOk(AttachRight(nodes, c, key, value), Grow(L, |nodes|, p, true), i)
  {
    var n := |nodes|;
    assert NodeOk(nodes, L, c);
    var N := AttachRight(nodes, c, key, value);
    var G := Grow(L, n, p, true);
    GrowRanked(L, n, p, true);
    assert NodeOk(nodes, L, i);
    assert N[i] == nodes[i];
    assert L.pos[i] != L.pos[c] by {
      assert L.order[L.pos[i]] == i && L.order[L.pos[c]] == c;
    }
    assert G.pos[i] == Bump(L.pos[i], p, true);
    assert G.lo[i] == Bump(L.lo[i], p, true);
    assert G.hi[i] == Bump(L.hi[i], p, true);
    match nodes[i].left {
      case Some(j) =>
        assert G.lo[j] == Bump(L.lo[j], p, true);
        assert G.hi[j] == Bump(L.hi[j], p, true);
      case None =>
    }
    match nodes[i].right {
      case Child(j) =>
        assert G.lo[j] == Bump(L.lo[j], p, true);
        assert G.hi[j] == Bump(L.hi[j], p, true);
      case Thread(j) =>
        assert G.pos[j] == Bump(L.pos[j], p, true);
        assert N[j].left.Some?;
      case Null =>
    }
  }

  lemma AttachEntries<V>(nodes: seq<Node<V>>, c: nat, key: int, value: V)
    requires c < |nodes|
    ensures Entries(AttachLeft(nodes, c, key, value)) == Entries(nodes)[key := value]
    ensures Entries(AttachRight(nodes, c, key, value)) == Entries(nodes)[key := value]
  {
    var leftLinked := nodes[c := nodes[c].(left := Some(|nodes|))];
    AppendEntries(leftLinked, nodes, Node(key, value, None, Thread(c)));
    var rightLinked := nodes[c := nodes[c].(right := Child(|nodes|))];
    AppendEntries(rightLinked, nodes, Node(key, value, None, nodes[c].right));
  }

  /** Relinking old nodes and appending a new one adds just the new pair. */
  lemma AppendEntries<V>(relinked: seq<Node<V>>, nodes: seq<Node<V>>, leaf: Node<V>)
    requires |relinked| == |nodes|
    requires forall i :: 0 <= i < |nodes| ==> relinked[i].key == nodes[i].key && relinked[i].value == nodes[i].value
    ensures Entries(relinked + [leaf]) == Entries(nodes)[leaf.key := leaf.value]
  {
    EntriesIgnoreLinks(relinked, nodes);
    assert (relinked + [leaf])[..|relinked|] == relinked;
  }

  /** The descent fell out of the tree below `c`, and `key` belongs right there. */
  ghost predicate FellOut<V>(nodes: seq<Node<V>>, L: Layout, key: int, c: nat)
    requires Ranked(|nodes|, L) && c < |nodes|
  {
    && (key < nodes[c].key ==> nodes[c].left.None? && RankIs(nodes, L, key, L.pos[c]))
    && (nodes[c].key < key ==> !nodes[c].right.Child? && RankIs(nodes, L, key, L.pos[c] + 1))
    && key != nodes[c].key
  }

  /** How `insert` links the new node below node `c`: on the left when `key`
      is smaller (with a thread back to `c`), otherwise as `c`'s real right
      child (taking over `c`'s thread or null). No other old node changes. */
  ghost predicate Relinked<V>(nodes: seq<Node<V>>, nodes': seq<Node<V>>, c: nat, key: int)
    requires |nodes'| == |nodes| + 1 && c < |nodes|
  {
    var n := |nodes|;
    && key != nodes[c].key
    && (forall i :: 0 <= i < n && i != c ==> nodes'[i] == nodes[i])
    && (key < nodes[c].key ==>
          && nodes[c].left.None? && nodes'[c] == nodes[c].(left := Some(n)) && nodes'[n].right == Thread(c)
          && forall i :: 0 <= i < n && key < nodes[i].key ==> nodes[c].key <= nodes[i].key)
    && (nodes[c].key < key ==>
          && !nodes[c].right.Child? && nodes'[c] == nodes[c].(right := Child(n)) && nodes'[n].right == nodes[c].right
          && forall i :: 0 <= i < n && nodes[i].key < key ==> nodes[i].key <= nodes[c].key)
  }

  /** The new node `(key, value)` with no left child is appended to the
      arena; it becomes the root of an empty tree, otherwise it is linked
      below one old node and the root stays. */
  ghost predicate Linked<V>(t: Tree<V>, t': Tree<V>, key: int, value: V)
  {
    var n := |t.nodes|;
    && |t'.nodes| == n + 1
    && t'.nodes[n].key == key && t'.nodes[n].value == value && t'.nodes[n].left.None?
    && (t.root.None? ==> t'.root == Some(0) && t'.nodes[n].right.Null?)
    && (t.root.Some? ==> t'.root == t.root && exists c :: 0 <= c < n && Relinked(t.nodes, t'.nodes, c, key))
  }

  /** `insert`: a present key leaves the tree exactly as it was (the first
      value wins); an absent key is added with its value and `Size` grows by
      one. The cursor is left alone. */
  method Insert<V>(t: Tree<V>, key: int, value: V) returns (t': Tree<V>)
    requires Valid(t)
    ensures Valid(t')
    ensures key in Contents(t) ==> t' == t
    ensures key !in Contents(t) ==> Contents(t') == Contents(t)[key := value] && t'.size == t.size + 1
    ensures key !in Contents(t) ==> Linked(t, t', key, value)
    ensures t'.cursor == t.cursor
  {
    ghost var L := LayoutOf(t.nodes, t.root);
    var nodes := t.nodes;
    var prev: Option<nat> := None;
    var cur := t.root;
    if cur.Some? {
      RootBrackets(nodes, cur.value, L, key);
    }
    while cur.Some?
      invariant cur.Some? ==> cur.value < |nodes| && Brackets(nodes, L, key, cur.value)
      invariant prev.Some? ==> prev.value < |nodes|
      invariant cur.None? && prev.None? ==> |nodes| == 0
      invariant cur.None? && prev.Some? ==> FellOut(nodes, L, key, prev.value)
      decreases Width(nodes, L, cur)
    {
      var c := cur.value;
      var nd := nodes[c];
      if key == nd.key {
        FoundAt(nodes, L, c);
        return t;
      }
      if key < nd.key {
        DescendLeft(nodes, L, key, c);
        prev := cur;
        cur := nd.left;
      } else {
        DescendRight(nodes, L, key, c);
        match nd.right {
          case Child(j) =>
            cur := Some(j);
          case _ =>
            prev := cur;
            cur := None;
        }
      }
    }

    t' := Place(t, L, prev, key, value);
  }

  /** The end of `insert` once the descent fell out below `prev`: plant a
      root in an empty tree, or link a new node below `prev`, on the left
      when the key is smaller and on the right otherwise. */
  method Place<V>(t: Tree<V>, ghost L: Layout, prev: Option<nat>, key: int, value: V) returns (t': Tree<V>)
    requires Valid(t) && Shaped(t.nodes, t.root, L)
    requires prev.None? ==> |t.nodes| == 0
    requires prev.Some? ==> prev.value < |t.nodes| && FellOut(t.nodes, L, key, prev.value)
    ensures Valid(t') && key !in Contents(t)
    ensures Contents(t') == Contents(t)[key := value] && t'.size == t.size + 1
    ensures Linked(t, t', key, value)
    ensures t'.cursor == t.cursor
  {
    if prev.None? {
      t' := Tree([Node(key, value, None, Null)], Some(0), t.size + 1, t.cursor);
      PlantRoot(t, key, value);
    } else {
      var c := prev.value;
      if key < t.nodes[c].key {
        t' := Tree(AttachLeft(t.nodes, c, key, value), t.root, t.size + 1, t.cursor);
        GrowLeft(t, L, c, key, value);
        LinkedLeft(t, L, c, key, value);
      } else {
        t' := Tree(AttachRight(t.nodes, c, key, value), t.root, t.size + 1, t.cursor);
        GrowRight(t, L, c, key, value);
        LinkedRight(t, L, c, key, value);
      }
    }
  }

  lemma LinkedLeft<V>(t: Tree<V>, L: Layout, c: nat, key: int, value: V)
    requires Shaped(t.nodes, t.root, L) && c < |t.nodes| && t.root.Some?
    requires FellOut(t.nodes, L, key, c) && key < t.nodes[c].key
    ensures Linked(t, Tree(AttachLeft(t.nodes, c, key, value), t.root, t.size + 1, t.cursor), key, value)
  {
    forall i | 0 <= i < |t.nodes| && key < t.nodes[i].key
      ensures t.nodes[c].key <= t.nodes[i].key
    {
      SameRank(t.nodes, L, i, c);
    }
    assert Relinked(t.nodes, AttachLeft(t.nodes, c, key, value), c, key);
  }

  lemma LinkedRight<V>(t: Tree<V>, L: Layout, c: nat, key: int, value: V)
    requires Shaped(t.nodes, t.root, L) && c < |t.nodes| && t.root.Some?
    requires FellOut(t.nodes, L, key, c) && t.nodes[c].key < key
    ensures Linked(t, Tree(AttachRight(t.nodes, c, key, value), t.root, t.size + 1, t.cursor), key, value)
  {
    forall i | 0 <= i < |t.nodes| && t.nodes[i].key < key
      ensures t.nodes[i].key <= t.nodes[c].key
    {
      SameRank(t.nodes, L, i, c);
    }
    assert Relinked(t.nodes, AttachRight(t.nodes, c, key, value), c, key);
  }

  lemma PlantRoot<V>(t: Tree<V>, key: int, value: V)
    requires Valid(t) && |t.nodes| == 0
    ensures var t' := Tree([Node(key, value, None, Null)], Some(0), t.size + 1, t.cursor);
      && Valid(t') && key !in Contents(t) && Contents(t') == Contents(t)[key := value]
  {
    var t' := Tree([Node(key, value, None, Null)], Some(0), t.size + 1, t.cursor);
    assert Shaped(t'.nodes, t'.root, Layout([0], [0], [0], [1]));
    assert t'.nodes[..0] == [];
  }

  lemma GrowLeft<V>(t: Tree<V>, L: Layout, c: nat, key: int, value: V)
    requires Valid(t) && Shaped(t.nodes, t.root, L) && c < |t.nodes|
    requires FellOut(t.nodes, L, key, c) && key < t.nodes[c].key
    ensures var t' := Tree(AttachLeft(t.nodes, c, key, value), t.root, t.size + 1, t.cursor);
      && Valid(t') && key !in Contents(t) && Contents(t') == Contents(t)[key := value]
  {
    var nodes := t.nodes;
    var n := |nodes|;
    var N := AttachLeft(nodes, c, key, value);
    AttachEntries(nodes, c, key, value);
    RankedAbsent(nodes, L, key, L.pos[c]);
    assert exists G :: Shaped(N, t.root, G) by {
      ShapedLeft(nodes, t.root, L, c, key, value);
    }
    ArrangedLinks(N, LayoutOf(N, t.root));
  }

  lemma ShapedLeft<V>(nodes: seq<Node<V>>, root: Option<nat>, L: Layout, c: nat, key: int, value: V)
    requires Shaped(nodes, root, L) && c < |nodes|
    requires FellOut(nodes, L, key, c) && key < nodes[c].key
    ensures Shaped(AttachLeft(nodes, c, key, value), root, Grow(L, |nodes|, L.pos[c], false))
  {
    assert NodeOk(nodes, L, c);
    var p := L.pos[c];
    AttachLeftArranged(nodes, L, c, key, value);
    var G := Grow(L, |nodes|, p, false);
    var r := root.value;
    assert NodeOk(nodes, L, r);
    assert G.lo[r] == Bump(L.lo[r], p, false);
    assert G.hi[r] == Bump(L.hi[r], p, false);
  }

  lemma GrowRight<V>(t: Tree<V>, L: Layout, c: nat, key: int, value: V)
    requires Valid(t) && Shaped(t.nodes, t.root, L) && c < |t.nodes|
    requires FellOut(t.nodes, L, key, c) && t.nodes[c].key < key
    ensures var t' := Tree(AttachRight(t.nodes, c, key, value), t.root, t.size + 1, t.cursor);
      && Valid(t') && key !in Contents(t) && Contents(t') == Contents(t)[key := value]
  {
    var nodes := t.nodes;
    var n := |nodes|;
    var N := AttachRight(nodes, c, key, value);
    assert NodeOk(nodes, L, c);
    var p := L.pos[c] + 1;
    AttachEntries(nodes, c, key, value);
    RankedAbsent(nodes, L, key, p);
    assert exists G :: Shaped(N, t.root, G) by {
      ShapedRight(nodes, t.root, L, c, key, value);
    }
    ArrangedLinks(N, LayoutOf(N, t.root));
  }

  lemma ShapedRight<V>(nodes: seq<Node<V>>, root: Option<nat>, L: Layout, c: nat, key: int, value: V)
    requires Shaped(nodes, root, L) && c < |nodes|
    requires FellOut(nodes, L, key, c) && nodes[c].key < key
    ensures L.pos[c] + 1 <= |nodes|
    ensures Shaped(AttachRight(nodes, c, key, value), root, Grow(L, |nodes|, L.pos[c] + 1, true))
  {
    assert NodeOk(nodes, L, c);
    var p := L.pos[c] + 1;
    AttachRightArranged(nodes, L, c, key, value);
    var G := Grow(L, |nodes|, p, true);
    var r := root.value;
    assert NodeOk(nodes, L, r);
    assert G.lo[r] == Bump(L.lo[r], p, true);
    assert G.hi[r] == Bump(L.hi[r], p, true);
  }
}
