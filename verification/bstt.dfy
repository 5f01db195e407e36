/**
  Data model of a threaded binary search tree with `int` keys.

  Nodes live in an arena (a sequence addressed by index) that holds exactly
  the live nodes: insertion appends, and nothing is ever removed one by one.
  The right pointer of a node means one of two things, so it is a tagged
  link: an owned right child, a non-owning thread to the inorder successor,
  or `Null` (a threaded node holding the largest key).
 */
module Bstt {

  datatype Option<T> = None | Some(value: T)

  /** The dual-purpose right pointer, with the `isThreaded` flag folded in. */
  datatype RightLink = Child(to: nat) | Thread(to: nat) | Null

  datatype Node<V> = Node(key: int, value: V, left: Option<nat>, right: RightLink)

  /** The traversal cursor `Current`: never set yet, at a node, or null. */
  datatype Cursor = Unset | At(node: nat) | Done

  datatype Tree<V> = Tree(nodes: seq<Node<V>>, root: Option<nat>, size: int, cursor: Cursor)

  /*
   * Representation invariant.
   *
   * It is stated node by node against a ghost layout: `pos[i]` is the inorder
   * rank of node `i`, `order` is the inverse of `pos`, and `[lo[i], hi[i])` is
   * the range of ranks held by the subtree rooted at `i` (left subtree and
   * real right subtree, never across a thread).
   */

  datatype Layout = Layout(order: seq<nat>, pos: seq<nat>, lo: seq<nat>, hi: seq<nat>)

  /** `pos` and `order` are mutually inverse permutations of `0..n-1`. */
  ghost predicate Ranked(n: nat, L: Layout)
  {
    && |L.order| == n && |L.pos| == n && |L.lo| == n && |L.hi| == n
    && (forall i :: 0 <= i < n ==> L.pos[i] < n && L.order[L.pos[i]] == i)
    && (forall q :: 0 <= q < n ==> L.order[q] < n && L.pos[L.order[q]] == q)
  }

  /** Keys increase strictly with inorder rank. */
  ghost predicate KeysFollowRanks<V>(nodes: seq<Node<V>>, L: Layout)
    requires |L.pos| == |nodes|
  {
    forall i, j :: 0 <= i < |nodes| && 0 <= j < |nodes| && L.pos[i] < L.pos[j] ==> nodes[i].key < nodes[j].key
  }

  /** The links of node `i` agree with the layout. */
  ghost predicate NodeOk<V>(nodes: seq<Node<V>>, L: Layout, i: nat)
    requires Ranked(|nodes|, L) && i < |nodes|
  {
    var n := |nodes|;
    && L.lo[i] <= L.pos[i] < L.hi[i] <= n
    && match nodes[i].left {
         case None => L.lo[i] == L.pos[i]
         case Some(j) => j < n && L.lo[j] == L.lo[i] && L.hi[j] == L.pos[i]
       }
    && match nodes[i].right {
         case Child(j) => j < n && L.lo[j] == L.pos[i] + 1 && L.hi[j] == L.hi[i]
         // a thread leads to the next rank, and its target has a left subtree
         // whose last node is `i`
         case Thread(j) => j < n && L.hi[i] == L.pos[i] + 1 && L.pos[j] == L.pos[i] + 1 && nodes[j].left.Some?
         case Null => L.hi[i] == L.pos[i] + 1 && L.pos[i] == n - 1
       }
  }

  ghost predicate Arranged<V>(nodes: seq<Node<V>>, L: Layout)
  {
    && Ranked(|nodes|, L)
    && KeysFollowRanks(nodes, L)
    && forall i :: 0 <= i < |nodes| ==> NodeOk(nodes, L, i)
  }

  ghost predicate Shaped<V>(nodes: seq<Node<V>>, root: Option<nat>, L: Layout)
  {
    && Arranged(nodes, L)
    && match root {
         case None => |nodes| == 0
         case Some(r) => r < |nodes| && L.lo[r] == 0 && L.hi[r] == |nodes|
       }
  }

  /** Every link names a node of the arena. */
  ghost predicate LinksInRange<V>(nodes: seq<Node<V>>)
  {
    forall i :: 0 <= i < |nodes| ==>
      (nodes[i].left.Some? ==> nodes[i].left.value < |nodes|)
      && (!nodes[i].right.Null? ==> nodes[i].right.to < |nodes|)
  }

  /** The class invariant: a layout exists, `Size` counts the nodes and the
      cursor is in range. `LinksInRange` follows from the layout
      (`ArrangedLinks`); it is stated here so that code holding only `Valid`
      may follow links without picking a layout. */
  ghost predicate Valid<V>(t: Tree<V>)
  {
    && (exists L :: Shaped(t.nodes, t.root, L))
    && LinksInRange(t.nodes)
    && t.size == |t.nodes|
    && (t.cursor.At? ==> t.cursor.node < |t.nodes|)
  }

  /** The shape conditions keep every link inside the arena. */
  lemma ArrangedLinks<V>(nodes: seq<Node<V>>, L: Layout)
    requires Arranged(nodes, L)
    ensures LinksInRange(nodes)
  {
    forall i | 0 <= i < |nodes|
      ensures nodes[i].left.Some? ==> nodes[i].left.value < |nodes|
      ensures !nodes[i].right.Null? ==> nodes[i].right.to < |nodes|
    {
      assert NodeOk(nodes, L, i);
    }
  }

  ghost function LayoutOf<V>(nodes: seq<Node<V>>, root: Option<nat>): (L: Layout)
    requires exists L :: Shaped(nodes, root, L)
    ensures Shaped(nodes, root, L)
  {
    var L :| Shaped(nodes, root, L); L
  }

  /*
   * Abstraction: the key/value map and the sorted key sequence.
   */

  function Entries<V>(nodes: seq<Node<V>>): map<int, V>
  {
    if |nodes| == 0 then map[]
    else Entries(nodes[..|nodes| - 1])[nodes[|nodes| - 1].key := nodes[|nodes| - 1].value]
  }

  function Contents<V>(t: Tree<V>): map<int, V>
  {
    Entries(t.nodes)
  }

  ghost predicate UniqueKeys<V>(nodes: seq<Node<V>>)
  {
    forall i, j :: 0 <= i < j < |nodes| ==> nodes[i].key != nodes[j].key
  }

  /** The keys of the tree in inorder, i.e. by rank. */
  ghost function Inorder<V>(t: Tree<V>): (ks: seq<int>)
    requires Valid(t)
    ensures |ks| == |t.nodes|
  {
    var L := LayoutOf(t.nodes, t.root);
    seq(|t.nodes|, q requires 0 <= q < |t.nodes| => t.nodes[L.order[q]].key)
  }

  ghost predicate StrictlyIncreasing(ks: seq<int>)
  {
    forall a, b :: 0 <= a < b < |ks| ==> ks[a] < ks[b]
  }

  /** `r` is the least key of `m` above `k`. */
  ghost predicate IsNextKey<V>(m: map<int, V>, k: int, r: int)
  {
    r in m && k < r && forall x :: x in m && k < x ==> r <= x
  }

  ghost predicate IsMaxKey<V>(m: map<int, V>, k: int)
  {
    forall x :: x in m ==> x <= k
  }

  ghost predicate IsMinKey<V>(m: map<int, V>, k: int)
  {
    k in m && forall x :: x in m ==> k <= x
  }

  /** The default constructor: an empty tree whose cursor is not yet set. */
  function EmptyTree<V>(): (t: Tree<V>)
    ensures Valid(t) && Contents(t) == map[] && t.root.None? && t.size == 0
  {
    var t := Tree([], None, 0, Unset);
    assert Shaped(t.nodes, t.root, Layout([], [], [], []));
    t
  }

  /** `size()`: the number of keys stored. */
  function Size<V>(t: Tree<V>): (r: int)
    requires Valid(t)
    ensures r == |Contents(t)|
  {
    ValidSize(t);
    t.size
  }

  /*
   * Lemmas about the abstraction.
   */

  lemma {:induction false} EntriesKeys<V>(nodes: seq<Node<V>>, k: int)
    ensures k in Entries(nodes) <==> exists i :: 0 <= i < |nodes| && nodes[i].key == k
  {
    if |nodes| > 0 {
      var init := nodes[..|nodes| - 1];
      EntriesKeys(init, k);
      if k in Entries(nodes) && k != nodes[|nodes| - 1].key {
        var i :| 0 <= i < |init| && init[i].key == k;
        assert nodes[i].key == k;
      }
      if exists i :: 0 <= i < |nodes| && nodes[i].key == k {
        var i :| 0 <= i < |nodes| && nodes[i].key == k;
        if i < |init| {
          assert init[i].key == k;
        }
      }
    }
  }

  lemma {:induction false} EntriesValue<V>(nodes: seq<Node<V>>, i: nat)
    requires UniqueKeys(nodes) && i < |nodes|
    ensures nodes[i].key in Entries(nodes) && Entries(nodes)[nodes[i].key] == nodes[i].value
  {
    var init := nodes[..|nodes| - 1];
    if i < |nodes| - 1 {
      assert init[i] == nodes[i];
      EntriesValue(init, i);
    }
  }

  lemma {:induction false} EntriesSize<V>(nodes: seq<Node<V>>)
    requires UniqueKeys(nodes)
    ensures |Entries(nodes)| == |nodes|
  {
    if |nodes| > 0 {
      var init := nodes[..|nodes| - 1];
      var last := nodes[|nodes| - 1];
      EntriesSize(init);
      EntriesKeys(init, last.key);
      assert last.key !in Entries(init);
    }
  }

  /** `Entries` reads only keys and values, never links. */
  lemma {:induction false} EntriesIgnoreLinks<V>(a: seq<Node<V>>, b: seq<Node<V>>)
    requires |a| == |b|
    requires forall i :: 0 <= i < |a| ==> a[i].key == b[i].key && a[i].value == b[i].value
    ensures Entries(a) == Entries(b)
  {
    if |a| > 0 {
      EntriesIgnoreLinks(a[..|a| - 1], b[..|b| - 1]);
    }
  }

  lemma ArrangedUnique<V>(nodes: seq<Node<V>>, L: Layout)
    requires Arranged(nodes, L)
    ensures UniqueKeys(nodes)
  {
    forall i, j | 0 <= i < j < |nodes|
      ensures nodes[i].key != nodes[j].key
    {
      assert L.pos[i] != L.pos[j] by {
        assert L.order[L.pos[i]] == i && L.order[L.pos[j]] == j;
      }
    }
  }

  /** `Size` is faithful: the counter equals the number of distinct keys. */
  lemma ValidSize<V>(t: Tree<V>)
    requires Valid(t)
    ensures t.size == |Contents(t)|
  {
    ArrangedUnique(t.nodes, LayoutOf(t.nodes, t.root));
    EntriesSize(t.nodes);
  }

  /** The sorted key sequence lists exactly the keys of the map, each once, in ascending order. */
  lemma InorderSorted<V>(t: Tree<V>)
    requires Valid(t)
    ensures StrictlyIncreasing(Inorder(t))
    ensures |Inorder(t)| == t.size == |Contents(t)|
    ensures forall k :: k in Contents(t) <==> k in Inorder(t)
  {
    var L := LayoutOf(t.nodes, t.root);
    var ks := Inorder(t);
    var n := |t.nodes|;
    ValidSize(t);
    forall a, b | 0 <= a < b < n
      ensures ks[a] < ks[b]
    {
      assert L.pos[L.order[a]] == a && L.pos[L.order[b]] == b;
    }
    forall k
      ensures k in Contents(t) <==> k in ks
    {
      EntriesKeys(t.nodes, k);
      if k in Contents(t) {
        var i :| 0 <= i < n && t.nodes[i].key == k;
        assert ks[L.pos[i]] == k;
      }
    }
  }
}
