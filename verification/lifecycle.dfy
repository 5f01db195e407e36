/**
  Teardown and copying: `_clear`/`clear`, `_copy`, the copy constructor and
  `operator=`. Freeing memory is modelled by the order in which `_clear`
  would delete nodes; the arena is then simply dropped.
 */
module Lifecycle {
  import opened Bstt
  import opened Descent
  import opened Insertion
  import opened Shape

  ghost predicate Distinct(xs: seq<nat>)
  {
    forall a, b :: 0 <= a < b < |xs| ==> xs[a] != xs[b]
  }

  /** `freed` lists each node ranked in `[lo, hi)` exactly once, and no other. */
  ghost predicate Covers<V>(nodes: seq<Node<V>>, L: Layout, freed: seq<nat>, lo: nat, hi: nat)
    requires Ranked(|nodes|, L)
  {
    && lo <= hi && |freed| == hi - lo && Distinct(freed)
    && (forall a :: 0 <= a < |freed| ==> freed[a] < |nodes| && lo <= L.pos[freed[a]] < hi)
    && (forall x :: 0 <= x < |nodes| && lo <= L.pos[x] < hi ==> x in freed)
  }

  /** `_clear`: the postorder teardown of the subtree at `cur`. It goes left
      always and right only through a real child, never along a thread, and
      so deletes every node of the subtree exactly once. */
  method Teardown<V>(t: Tree<V>, ghost L: Layout, cur: Option<nat>) returns (freed: seq<nat>)
    requires Valid(t) && Shaped(t.nodes, t.root, L) && (cur.Some? ==> cur.value < |t.nodes|)
    ensures cur.None? ==> freed == []
    ensures cur.Some? ==> Covers(t.nodes, L, freed, L.lo[cur.value], L.hi[cur.value])
    decreases Width(t.nodes, L, cur)
  {
    match cur {
      case None =>
        freed := [];
      case Some(c) =>
        var nd := t.nodes[c];
        ChildRanges(t.nodes, L, c);
        var fromLeft := Teardown(t, L, nd.left);
        var fromRight := [];
        if nd.right.Child? {
          fromRight := Teardown(t, L, Some(nd.right.to));
        }
        freed := fromLeft + fromRight + [c];
        JoinCovers(t.nodes, L, c, fromLeft, fromRight);
    }
  }

  /** Node `c`'s left subtree holds the ranks below it, its right child's
      subtree those above it, and both are narrower than `c`'s own. */
  lemma ChildRanges<V>(nodes: seq<Node<V>>, L: Layout, c: nat)
    requires Arranged(nodes, L) && c < |nodes|
    ensures NodeOk(nodes, L, c)
    ensures nodes[c].left.Some? ==>
      (&& nodes[c].left.value < |nodes|
       && L.lo[nodes[c].left.value] == L.lo[c] && L.hi[nodes[c].left.value] == L.pos[c]
       && Width(nodes, L, nodes[c].left) < Width(nodes, L, Some(c)))
    ensures nodes[c].left.None? ==> L.lo[c] == L.pos[c]
    ensures nodes[c].right.Child? ==>
      (&& nodes[c].right.to < |nodes|
       && L.lo[nodes[c].right.to] == L.pos[c] + 1 && L.hi[nodes[c].right.to] == L.hi[c]
       && Width(nodes, L, Some(nodes[c].right.to)) < Width(nodes, L, Some(c)))
    ensures !nodes[c].right.Child? ==> L.hi[c] == L.pos[c] + 1
  {
    assert NodeOk(nodes, L, c);
    if nodes[c].left.Some? {
      assert NodeOk(nodes, L, nodes[c].left.value);
    }
    if nodes[c].right.Child? {
      assert NodeOk(nodes, L, nodes[c].right.to);
    }
  }

  lemma JoinCovers<V>(nodes: seq<Node<V>>, L: Layout, c: nat, fromLeft: seq<nat>, fromRight: seq<nat>)
    requires Ranked(|nodes|, L) && c < |nodes| && L.lo[c] <= L.pos[c] < L.hi[c]
    requires Covers(nodes, L, fromLeft, L.lo[c], L.pos[c])
    requires Covers(nodes, L, fromRight, L.pos[c] + 1, L.hi[c])
    ensures Covers(nodes, L, fromLeft + fromRight + [c], L.lo[c], L.hi[c])
  {
    var freed := fromLeft + fromRight + [c];
    forall a, b | 0 <= a < b < |freed|
      ensures freed[a] != freed[b]
    {
      if b < |fromLeft| {
        assert freed[a] == fromLeft[a] && freed[b] == fromLeft[b];
      } else if a < |fromLeft| {
        assert L.pos[freed[a]] < L.pos[c] < L.pos[freed[b]] || L.pos[freed[a]] < L.pos[c] == L.pos[freed[b]];
      } else if b < |fromLeft| + |fromRight| {
        assert freed[a] == fromRight[a - |fromLeft|] && freed[b] == fromRight[b - |fromLeft|];
      } else {
        assert L.pos[freed[a]] > L.pos[c];
      }
    }
    forall x | 0 <= x < |nodes| && L.lo[c] <= L.pos[x] < L.hi[c]
      ensures x in freed
    {
      SameRank(nodes, L, x, c);
      if L.pos[x] < L.pos[c] {
        assert x in fromLeft;
      } else if L.pos[x] > L.pos[c] {
        assert x in fromRight;
      }
    }
  }

  /** `clear`: every node is deleted exactly once and the tree is empty
      afterwards; on an already empty tree nothing changes. A cursor left on
      a deleted node dangles and has to be set again by `begin`. */
  method Clear<V>(t: Tree<V>) returns (t': Tree<V>, freed: seq<nat>)
    requires Valid(t)
    ensures Valid(t') && Contents(t') == map[] && t'.root.None? && Size(t') == 0
    ensures t'.cursor == if t.cursor.At? then Unset else t.cursor
    ensures |freed| == |t.nodes| && Distinct(freed)
    ensures forall x :: 0 <= x < |t.nodes| ==> x in freed
    ensures Contents(t) == map[] ==> t' == t
  {
    ghost var L := LayoutOf(t.nodes, t.root);
    freed := Teardown(t, L, t.root);
    FreedAll(t, L, freed);
    var cursor := if t.cursor.At? then Unset else t.cursor;
    t' := Tree([], None, 0, cursor);
    EmptyValid(t');
    if Contents(t) == map[] {
      EmptyShape(t);
    }
  }

  lemma FreedAll<V>(t: Tree<V>, L: Layout, freed: seq<nat>)
    requires Shaped(t.nodes, t.root, L)
    requires t.root.None? ==> freed == []
    requires t.root.Some? ==> Covers(t.nodes, L, freed, L.lo[t.root.value], L.hi[t.root.value])
    ensures |freed| == |t.nodes| && Distinct(freed)
    ensures forall x :: 0 <= x < |t.nodes| ==> x in freed
  {
  }

  /** A tree without nodes, root or size is well formed and maps nothing. */
  lemma EmptyValid<V>(t: Tree<V>)
    requires t.nodes == [] && t.root.None? && t.size == 0 && !t.cursor.At?
    ensures Valid(t) && Contents(t) == map[] && Size(t) == 0
  {
    assert Shaped(t.nodes, t.root, Layout([], [], [], []));
  }

  /** A well-formed tree that maps nothing has no nodes. */
  lemma EmptyShape<V>(t: Tree<V>)
    requires Valid(t) && Contents(t) == map[]
    ensures t.nodes == [] && t.root.None? && t.size == 0 && !t.cursor.At?
  {
    ValidSize(t);
    var L := LayoutOf(t.nodes, t.root);
  }

  /*
   * The keys and values of a range of ranks.
   */

  ghost function Span<V>(nodes: seq<Node<V>>, L: Layout, a: nat, b: nat): map<int, V>
    requires Ranked(|nodes|, L) && b <= |nodes|
    decreases b
  {
    if b <= a then map[]
    else Span(nodes, L, a, b - 1)[nodes[L.order[b - 1]].key := nodes[L.order[b - 1]].value]
  }

  lemma {:induction false} SpanSplit<V>(nodes: seq<Node<V>>, L: Layout, a: nat, b: nat, c: nat)
    requires Ranked(|nodes|, L) && a <= b <= c <= |nodes|
    ensures Span(nodes, L, a, c) == Span(nodes, L, a, b) + Span(nodes, L, b, c)
    decreases c
  {
    if b < c {
      SpanSplit(nodes, L, a, b, c - 1);
    }
  }

  lemma {:induction false} SpanKeys<V>(nodes: seq<Node<V>>, L: Layout, a: nat, b: nat, k: int)
    requires Ranked(|nodes|, L) && b <= |nodes|
    ensures k in Span(nodes, L, a, b) ==> exists q :: a <= q < b && nodes[L.order[q]].key == k
    ensures forall q :: a <= q < b && nodes[L.order[q]].key == k ==> k in Span(nodes, L, a, b)
    decreases b
  {
    if a < b {
      SpanKeys(nodes, L, a, b - 1, k);
    }
  }

  lemma {:induction false} SpanValue<V>(nodes: seq<Node<V>>, L: Layout, a: nat, b: nat, q: nat)
    requires Arranged(nodes, L) && a <= q < b <= |nodes|
    ensures nodes[L.order[q]].key in Span(nodes, L, a, b)
    ensures Span(nodes, L, a, b)[nodes[L.order[q]].key] == nodes[L.order[q]].value
    decreases b
  {
    if q < b - 1 {
      SpanValue(nodes, L, a, b - 1, q);
      assert L.pos[L.order[q]] == q && L.pos[L.order[b - 1]] == b - 1;
    }
  }

  /** Disjoint ranges of ranks hold disjoint sets of keys. */
  lemma SpanDisjoint<V>(nodes: seq<Node<V>>, L: Layout, a: nat, b: nat, c: nat, d: nat)
    requires Arranged(nodes, L) && a <= b <= c <= d <= |nodes|
    ensures Span(nodes, L, a, b).Keys !! Span(nodes, L, c, d).Keys
  {
    forall k | k in Span(nodes, L, a, b)
      ensures k !in Span(nodes, L, c, d)
    {
      SpanKeys(nodes, L, a, b, k);
      SpanKeys(nodes, L, c, d, k);
    }
  }

  /** The whole range of ranks holds exactly the tree's map. */
  lemma SpanAll<V>(nodes: seq<Node<V>>, L: Layout)
    requires Arranged(nodes, L)
    ensures Span(nodes, L, 0, |nodes|) == Entries(nodes)
  {
    var S := Span(nodes, L, 0, |nodes|);
    ArrangedUnique(nodes, L);
    forall k
      ensures k in S <==> k in Entries(nodes)
    {
      SpanKeys(nodes, L, 0, |nodes|, k);
      EntriesKeys(nodes, k);
      if k in Entries(nodes) {
        var i :| 0 <= i < |nodes| && nodes[i].key == k;
        assert L.order[L.pos[i]] == i;
      }
    }
    forall k | k in S
      ensures S[k] == Entries(nodes)[k]
    {
      SpanKeys(nodes, L, 0, |nodes|, k);
      var q :| 0 <= q < |nodes| && nodes[L.order[q]].key == k;
      SpanValue(nodes, L, 0, |nodes|, q);
      EntriesValue(nodes, L.order[q]);
    }
  }

  /** The map held by the subtree at `cur`. */
  ghost function Subtree<V>(nodes: seq<Node<V>>, L: Layout, cur: Option<nat>): map<int, V>
    requires Ranked(|nodes|, L)
  {
    match cur
    case Some(c) => if c < |nodes| && L.hi[c] <= |nodes| then Span(nodes, L, L.lo[c], L.hi[c]) else map[]
    case None => map[]
  }

  /** The three parts of node `c`'s subtree as ranges of ranks. */
  ghost function RightPart<V>(nodes: seq<Node<V>>, L: Layout, c: nat): map<int, V>
    requires Ranked(|nodes|, L) && c < |nodes|
  {
    if nodes[c].right.Child? then Subtree(nodes, L, Some(nodes[c].right.to)) else map[]
  }

  lemma SubtreeRanges<V>(nodes: seq<Node<V>>, L: Layout, c: nat)
    requires Arranged(nodes, L) && c < |nodes|
    ensures L.lo[c] <= L.pos[c] < L.hi[c] <= |nodes|
    ensures Subtree(nodes, L, Some(c)) == Span(nodes, L, L.lo[c], L.hi[c])
    ensures Subtree(nodes, L, nodes[c].left) == Span(nodes, L, L.lo[c], L.pos[c])
    ensures RightPart(nodes, L, c) == Span(nodes, L, L.pos[c] + 1, L.hi[c])
    ensures map[nodes[c].key := nodes[c].value] == Span(nodes, L, L.pos[c], L.pos[c] + 1)
  {
    assert NodeOk(nodes, L, c);
    assert L.order[L.pos[c]] == c;
    LeftPart(nodes, L, c);
    RightPartRange(nodes, L, c);
  }

  lemma LeftPart<V>(nodes: seq<Node<V>>, L: Layout, c: nat)
    requires Arranged(nodes, L) && c < |nodes| && NodeOk(nodes, L, c)
    ensures Subtree(nodes, L, nodes[c].left) == Span(nodes, L, L.lo[c], L.pos[c])
  {
    if nodes[c].left.Some? {
      assert NodeOk(nodes, L, nodes[c].left.value);
    }
  }

  lemma RightPartRange<V>(nodes: seq<Node<V>>, L: Layout, c: nat)
    requires Arranged(nodes, L) && c < |nodes| && NodeOk(nodes, L, c)
    ensures RightPart(nodes, L, c) == Span(nodes, L, L.pos[c] + 1, L.hi[c])
  {
    if nodes[c].right.Child? {
      assert NodeOk(nodes, L, nodes[c].right.to);
    }
  }

  /** A subtree's map is its left subtree's, its own pair and its right
      child's subtree's, on pairwise disjoint keys. */
  lemma SubtreeSplit<V>(nodes: seq<Node<V>>, L: Layout, c: nat)
    requires Arranged(nodes, L) && c < |nodes|
    ensures var left := Subtree(nodes, L, nodes[c].left);
      var mid := map[nodes[c].key := nodes[c].value];
      var right := RightPart(nodes, L, c);
      && Subtree(nodes, L, Some(c)) == left + mid + right
      && left.Keys !! mid.Keys && mid.Keys !! right.Keys && left.Keys !! right.Keys
  {
    SubtreeRanges(nodes, L, c);
    var lo, p, hi := L.lo[c], L.pos[c], L.hi[c];
    SpanSplit(nodes, L, lo, p, p + 1);
    SpanSplit(nodes, L, lo, p + 1, hi);
    SpanDisjoint(nodes, L, lo, p, p, p + 1);
    SpanDisjoint(nodes, L, lo, p, p + 1, hi);
    SpanDisjoint(nodes, L, p, p + 1, p + 1, hi);
  }

  lemma UnionReorder<V>(left: map<int, V>, mid: map<int, V>, right: map<int, V>, dst: map<int, V>)
    requires left.Keys !! mid.Keys && mid.Keys !! right.Keys && left.Keys !! right.Keys
    ensures right + (left + (mid + dst)) == (left + mid + right) + dst
  {
  }

  /** `insert` keeps the first value: it acts as a union in which the tree wins. */
  lemma KeepFirst<V>(m: map<int, V>, k: int, v: V, m': map<int, V>)
    requires k in m ==> m' == m
    requires k !in m ==> m' == m[k := v]
    ensures m' == map[k := v] + m
  {
  }

  /** The key at the root, if the tree has one. */
  function RootKey<V>(t: Tree<V>): Option<int>
  {
    if t.root.Some? && t.root.value < |t.nodes| then Some(t.nodes[t.root.value].key) else None
  }

  /** Every node of `nodes` is still there in `nodes'`, at the same index and
      with the same key; only links change and nodes are appended. */
  ghost predicate KeepsKeys<V>(nodes: seq<Node<V>>, nodes': seq<Node<V>>)
  {
    |nodes| <= |nodes'| && forall i :: 0 <= i < |nodes| ==> nodes'[i].key == nodes[i].key
  }

  lemma KeepsKeysChain<V>(a: seq<Node<V>>, b: seq<Node<V>>, c: seq<Node<V>>)
    requires KeepsKeys(a, b) && KeepsKeys(b, c)
    ensures KeepsKeys(a, c)
  {
  }

  lemma RootKept<V>(t: Tree<V>, t': Tree<V>)
    requires t.root.Some? && t.root.value < |t.nodes|
    requires t'.root == t.root && KeepsKeys(t.nodes, t'.nodes)
    ensures RootKey(t') == RootKey(t)
  {
  }

  /** `insert` seen as a map union in which the pairs already present win. */
  method InsertPair<V>(t: Tree<V>, key: int, value: V) returns (t': Tree<V>)
    requires Valid(t)
    ensures Valid(t') && t'.cursor == t.cursor
    ensures Contents(t') == map[key := value] + Contents(t)
    ensures key !in Contents(t) ==> Linked(t, t', key, value) && Contents(t') == Contents(t)[key := value]
    ensures KeepsKeys(t.nodes, t'.nodes)
    ensures t.root.Some? ==> t'.root == t.root
    ensures t.root.None? ==> RootKey(t') == Some(key)
  {
    t' := Insert(t, key, value);
    KeepFirst(Contents(t), key, value, Contents(t'));
  }

  /** `_copy`: re-inserts the subtree at `cur` into `dst` in preorder, going
      right only through a real child. Keys already in `dst` keep their
      values, as `insert` ignores duplicates. */
  method CopyFrom<V>(dst: Tree<V>, src: Tree<V>, ghost L: Layout, cur: Option<nat>) returns (dst': Tree<V>)
    requires Valid(dst) && Valid(src) && Shaped(src.nodes, src.root, L)
    requires cur.Some? ==> cur.value < |src.nodes|
    ensures Valid(dst') && dst'.cursor == dst.cursor
    ensures Contents(dst') == Subtree(src.nodes, L, cur) + Contents(dst)
    ensures KeepsKeys(dst.nodes, dst'.nodes)
    ensures dst.root.Some? || cur.None? ==> dst'.root == dst.root
    ensures dst.root.None? && cur.Some? ==> RootKey(dst') == Some(src.nodes[cur.value].key)
    ensures Ready(dst, src, L, cur) ==> Mirrors(dst', src)
    decreases Width(src.nodes, L, cur), 1
  {
    match cur {
      case None =>
        dst' := dst;
      case Some(c) =>
        var nd := src.nodes[c];
        ghost var ready := Ready(dst, src, L, cur);
        if ready {
          ReadyAbsent(dst, src, L, c);
        }
        dst' := InsertPair(dst, nd.key, nd.value);
        ghost var d1 := dst';
        if ready {
          MirrorStep(dst, d1, src, L, c);
          TopReady(dst, d1, src, L, c);
        }
        dst' := CopyBelow(dst', src, L, c);
        assert KeepsKeys(dst.nodes, dst'.nodes) by {
          KeepsKeysChain(dst.nodes, d1.nodes, dst'.nodes);
        }
        assert RootKey(dst') == RootKey(d1) by {
          assert d1.root.Some? && d1.root.value < |d1.nodes| by {
            if dst.root.None? { assert RootKey(d1) == Some(nd.key); }
          }
          RootKept(d1, dst');
        }
        assert Contents(dst') == Subtree(src.nodes, L, cur) + Contents(dst) by {
          SubtreeSplit(src.nodes, L, c);
          UnionReorder(Subtree(src.nodes, L, nd.left), map[nd.key := nd.value], RightPart(src.nodes, L, c), Contents(dst));
        }
    }
  }

  /** The two recursive calls of `_copy` at node `c`, made once `c` itself is
      in `dst`: first its left subtree, then its real right child's. */
  method CopyBelow<V>(dst: Tree<V>, src: Tree<V>, ghost L: Layout, c: nat) returns (dst': Tree<V>)
    requires Valid(dst) && dst.root.Some? && Valid(src) && Shaped(src.nodes, src.root, L)
    requires c < |src.nodes|
    ensures Valid(dst') && dst'.cursor == dst.cursor
    ensures Contents(dst') == RightPart(src.nodes, L, c) + (Subtree(src.nodes, L, src.nodes[c].left) + Contents(dst))
    ensures KeepsKeys(dst.nodes, dst'.nodes) && dst'.root == dst.root
    ensures Mirrors(dst, src) && OnlyTop(dst, src, L, c) ==> Mirrors(dst', src)
    decreases Width(src.nodes, L, Some(c)), 0
  {
    var nd := src.nodes[c];
    ChildRanges(src.nodes, L, c);
    ghost var top := Mirrors(dst, src) && OnlyTop(dst, src, L, c);
    if top {
      LeftReady(dst, src, L, c);
    }
    dst' := CopyFrom(dst, src, L, nd.left);
    if nd.right.Child? {
      ghost var d2 := dst';
      if top {
        RightReady(dst, d2, src, L, c);
      }
      dst' := CopyFrom(dst', src, L, Some(nd.right.to));
      KeepsKeysChain(dst.nodes, d2.nodes, dst'.nodes);
    }
  }

  /** The copy constructor: an independent tree built by re-insertion, with
      the same map and size as `src`; its cursor is not set. */
  method CopyOf<V>(src: Tree<V>) returns (t: Tree<V>)
    requires Valid(src)
    ensures Valid(t) && Contents(t) == Contents(src) && Size(t) == Size(src)
    ensures RootKey(t) == RootKey(src)
    ensures LeftPairs(t.nodes) == LeftPairs(src.nodes) && RightPairs(t.nodes) == RightPairs(src.nodes)
    ensures t.cursor == Unset
  {
    ghost var L := LayoutOf(src.nodes, src.root);
    t := EmptyTree();
    var freed;
    t, freed := Clear(t);
    StartReady(t, src, L);
    t := CopyFrom(t, src, L, src.root);
    CopiedAll(src, L, t);
    MirrorsAll(t, src);
    t := t.(size := src.size);
  }

  /** `operator=` from a distinct source: clear, then re-insert every pair. */
  method Assign<V>(t: Tree<V>, src: Tree<V>) returns (t': Tree<V>)
    requires Valid(t) && Valid(src)
    ensures Valid(t') && Contents(t') == Contents(src) && Size(t') == Size(src)
    ensures RootKey(t') == RootKey(src)
    ensures LeftPairs(t'.nodes) == LeftPairs(src.nodes) && RightPairs(t'.nodes) == RightPairs(src.nodes)
    ensures t'.cursor == if t.cursor.At? then Unset else t.cursor
  {
    ghost var L := LayoutOf(src.nodes, src.root);
    var freed;
    t', freed := Clear(t);
    StartReady(t', src, L);
    t' := CopyFrom(t', src, L, src.root);
    CopiedAll(src, L, t');
    MirrorsAll(t', src);
  }

  lemma CopiedAll<V>(src: Tree<V>, L: Layout, t: Tree<V>)
    requires Valid(src) && Shaped(src.nodes, src.root, L) && Valid(t)
    requires Contents(t) == Subtree(src.nodes, L, src.root) + map[]
    ensures Contents(t) == Contents(src) && t.size == src.size
  {
    SpanAll(src.nodes, L);
    if src.root.None? {
      assert Contents(src) == map[];
    }
    ValidSize(t);
    ValidSize(src);
  }

  /*
   * `_copy` rebuilds the source's links: the copy mirrors the source after
   * every `insert` (see module `Shape`).
   */

  /** An emptied tree is ready to receive the whole source. */
  lemma StartReady<V>(t: Tree<V>, src: Tree<V>, L: Layout)
    requires Valid(t) && Contents(t) == map[] && Shaped(src.nodes, src.root, L)
    ensures Ready(t, src, L, src.root)
  {
    EmptyShape(t);
    MirrorsEmpty(t, src);
  }

  /** The node about to be copied is not in the copy yet. */
  lemma ReadyAbsent<V>(d: Tree<V>, s: Tree<V>, L: Layout, c: nat)
    requires Arranged(s.nodes, L) && c < |s.nodes| && Ready(d, s, L, Some(c))
    ensures s.nodes[c].key !in Contents(d)
  {
    ChildRanges(s.nodes, L, c);
  }

  /** Inserting node `c` into a copy ready for it leaves `c` as the only
      copied node of its subtree. */
  lemma TopReady<V>(d: Tree<V>, d1: Tree<V>, s: Tree<V>, L: Layout, c: nat)
    requires Arranged(s.nodes, L) && c < |s.nodes| && Ready(d, s, L, Some(c))
    requires Contents(d1) == map[s.nodes[c].key := s.nodes[c].value] + Contents(d)
    ensures OnlyTop(d1, s, L, c)
  {
    ArrangedUnique(s.nodes, L);
    forall i | 0 <= i < |s.nodes| && L.lo[c] <= L.pos[i] < L.hi[c] && i != c
      ensures s.nodes[i].key != s.nodes[c].key
    {
      if i < c {
        assert s.nodes[i].key != s.nodes[c].key;
      } else {
        assert s.nodes[c].key != s.nodes[i].key;
      }
    }
  }

  /** With only `c` copied, `_copy` is ready for `c`'s left subtree, whose
      parent `c` is in the copy. */
  lemma LeftReady<V>(d: Tree<V>, s: Tree<V>, L: Layout, c: nat)
    requires Arranged(s.nodes, L) && c < |s.nodes| && Mirrors(d, s) && OnlyTop(d, s, L, c)
    ensures Ready(d, s, L, s.nodes[c].left)
  {
    ChildRanges(s.nodes, L, c);
    if s.nodes[c].left.Some? {
      assert ParentOf(s.nodes, c, s.nodes[c].left.value);
    }
  }

  /** After `c`'s left subtree, `_copy` is ready for `c`'s real right child:
      the left subtree's keys all rank below `c`, the right child's above. */
  lemma RightReady<V>(d: Tree<V>, d2: Tree<V>, s: Tree<V>, L: Layout, c: nat)
    requires Arranged(s.nodes, L) && c < |s.nodes| && s.nodes[c].right.Child?
    requires OnlyTop(d, s, L, c) && Mirrors(d2, s)
    requires Contents(d2) == Subtree(s.nodes, L, s.nodes[c].left) + Contents(d)
    ensures Ready(d2, s, L, Some(s.nodes[c].right.to))
  {
    var r := s.nodes[c].right.to;
    SubtreeRanges(s.nodes, L, c);
    ChildRanges(s.nodes, L, c);
    assert ParentOf(s.nodes, c, r);
    forall i | 0 <= i < |s.nodes| && L.lo[r] <= L.pos[i] < L.hi[r]
      ensures s.nodes[i].key !in Contents(d2)
    {
      SpanKeys(s.nodes, L, L.lo[c], L.pos[c], s.nodes[i].key);
      forall q | L.lo[c] <= q < L.pos[c]
        ensures s.nodes[L.order[q]].key < s.nodes[i].key
      {
        assert L.pos[L.order[q]] == q;
      }
    }
  }
}
