/**
  The stack-free inorder traversal: `begin` puts the cursor on the leftmost
  node, and each `next` yields the cursor's key and then follows the thread,
  or, at a node with a real right child, goes to the leftmost node of that
  child's subtree.
 */
module Traversal {
  import opened Bstt
  import opened Descent

  /** `_begin`: the leftmost node of the subtree at `cur`, which holds that
      subtree's first rank; null for a null subtree. */
  method Leftmost<V>(t: Tree<V>, cur: Option<nat>) returns (r: Option<nat>)
    requires Valid(t) && (cur.Some? ==> cur.value < |t.nodes|)
    ensures cur.None? ==> r.None?
    ensures cur.Some? ==> r.Some? && r.value < |t.nodes| && t.nodes[r.value].left.None?
    ensures cur.Some? ==> var L := LayoutOf(t.nodes, t.root); L.pos[r.value] == L.lo[cur.value]
  {
    if cur.None? {
      return None;
    }
    ghost var L := LayoutOf(t.nodes, t.root);
    var c: nat := cur.value;
    assert Ranked(|t.nodes|, L);
    while t.nodes[c].left.Some?
      invariant c < |t.nodes|
      invariant L.lo[c] == L.lo[cur.value]
      decreases L.pos[c]
    {
      assert NodeOk(t.nodes, L, c);
      var j := t.nodes[c].left.value;
      assert NodeOk(t.nodes, L, j);
      c := j;
    }
    assert NodeOk(t.nodes, L, c);
    return Some(c);
  }

  /** `begin`: the cursor lands on the node holding the smallest key, or is
      null when the tree is empty. The tree itself is not changed. */
  method Begin<V>(t: Tree<V>) returns (t': Tree<V>)
    requires Valid(t)
    ensures Valid(t') && t'.nodes == t.nodes && t'.root == t.root && t'.size == t.size
    ensures t'.cursor != Unset
    ensures t'.cursor == Done <==> Contents(t) == map[]
    ensures t'.cursor.At? ==> IsMinKey(Contents(t), t.nodes[t'.cursor.node].key)
  {
    ghost var L := LayoutOf(t.nodes, t.root);
    var first := Leftmost(t, t.root);
    match first {
      case Some(c) =>
        t' := t.(cursor := At(c));
        RankFirst(t.nodes, L, c);
      case None =>
        t' := t.(cursor := Done);
        EmptyWhenNoNodes(t.nodes);
    }
  }

  /** `next`: on a null cursor, `false` and the caller's `key0` untouched;
      otherwise `true`, the cursor's key, and the cursor moved to the node of
      the next larger key, or to null after the largest key. */
  method Next<V>(t: Tree<V>, key0: int) returns (ok: bool, key: int, t': Tree<V>)
    requires Valid(t) && t.cursor != Unset
    ensures Valid(t') && t'.nodes == t.nodes && t'.root == t.root && t'.size == t.size
    ensures t'.cursor != Unset
    ensures t.cursor == Done ==> !ok && key == key0 && t' == t
    ensures t.cursor.At? ==> ok && key == t.nodes[t.cursor.node].key && key in Contents(t)
    ensures t.cursor.At? ==> (t'.cursor == Done <==> IsMaxKey(Contents(t), key))
    ensures t.cursor.At? && t'.cursor.At? ==> IsNextKey(Contents(t), key, t.nodes[t'.cursor.node].key)
  {
    if t.cursor == Done {
      return false, key0, t;
    }
    ghost var L := LayoutOf(t.nodes, t.root);
    var c := t.cursor.node;
    assert NodeOk(t.nodes, L, c);
    FoundAt(t.nodes, L, c);
    key := t.nodes[c].key;
    match t.nodes[c].right {
      case Thread(j) =>
        t' := t.(cursor := At(j));
        RankNext(t.nodes, L, c, j);
        NotMaxBelowNext(Contents(t), key, t.nodes[j].key);
      case Null =>
        t' := t.(cursor := Done);
        RankLast(t.nodes, L, c);
      case Child(j) =>
        var r := Leftmost(t, Some(j));
        t' := t.(cursor := At(r.value));
        RankNext(t.nodes, L, c, r.value);
        NotMaxBelowNext(Contents(t), key, t.nodes[r.value].key);
    }
    ok := true;
  }

  /** The client loop `begin(); while (next(key)) ...`: it yields every key
      once, in strictly ascending order, `size()` keys in all, and leaves the
      cursor null, so a further `next` returns false. */
  method Walk<V>(t: Tree<V>) returns (keys: seq<int>, t': Tree<V>)
    requires Valid(t)
    ensures keys == Inorder(t)
    ensures StrictlyIncreasing(keys) && |keys| == Size(t)
    ensures forall k :: k in keys <==> k in Contents(t)
    ensures t' == t.(cursor := Done)
  {
    ghost var ks := Inorder(t);
    InorderSorted(t);
    t' := Begin(t);
    StartCursor(t.nodes, t'.cursor, Contents(t), ks);
    keys, t' := Drain(t, t', ks);
  }

  /** The `next` loop of `Walk`, from a cursor at position 0 of the sorted
      listing `ks` of the tree's keys: it yields exactly `ks`. */
  method Drain<V>(t: Tree<V>, t0: Tree<V>, ghost ks: seq<int>) returns (keys: seq<int>, t': Tree<V>)
    requires Valid(t0) && t0 == t.(cursor := t0.cursor) && t0.cursor != Unset
    requires Lists(Contents(t), ks) && CursorAt(t.nodes, t0.cursor, ks, 0)
    ensures keys == ks && t' == t.(cursor := Done)
  {
    t' := t0;
    keys := [];
    var more := true;
    var k := 0;
    while more
      invariant Valid(t') && t' == t.(cursor := t'.cursor)
      invariant t'.cursor != Unset
      invariant |keys| <= |ks| && keys == ks[..|keys|]
      invariant more ==> CursorAt(t.nodes, t'.cursor, ks, |keys|)
      invariant !more ==> |keys| == |ks| && t'.cursor == Done
      decreases |ks| - |keys| + (if more then 1 else 0)
    {
      ghost var q := |keys|;
      ghost var at := t'.cursor;
      more, k, t' := Next(t', k);
      if more {
        assert k == ks[q] by {
          assert at.At? && t.nodes[at.node].key == ks[q];
        }
        StepCursor(t.nodes, t'.cursor, Contents(t), ks, q, k);
        PrefixStep(ks, q);
        keys := keys + [k];
      }
    }
  }

  /*
   * The sorted key sequence against the abstract order on keys.
   */

  /** `ks` lists the keys of `m` in ascending order. */
  ghost predicate Lists<V>(m: map<int, V>, ks: seq<int>)
  {
    StrictlyIncreasing(ks) && forall x :: x in m <==> x in ks
  }

  /** The cursor stands at position `q` of the sorted keys, or is null past the end. */
  ghost predicate CursorAt<V>(nodes: seq<Node<V>>, cursor: Cursor, ks: seq<int>, q: nat)
  {
    && (cursor == Done <==> q == |ks|)
    && (cursor.At? ==> q < |ks| && cursor.node < |nodes| && nodes[cursor.node].key == ks[q])
  }

  lemma StartCursor<V>(nodes: seq<Node<V>>, cursor: Cursor, m: map<int, V>, ks: seq<int>)
    requires Lists(m, ks) && cursor != Unset
    requires cursor == Done <==> m == map[]
    requires cursor.At? ==> cursor.node < |nodes| && IsMinKey(m, nodes[cursor.node].key)
    ensures CursorAt(nodes, cursor, ks, 0)
  {
    EmptyListing(m, ks);
    if cursor.At? {
      MinIsFirst(m, ks, nodes[cursor.node].key);
    }
  }

  lemma StepCursor<V>(nodes: seq<Node<V>>, cursor: Cursor, m: map<int, V>, ks: seq<int>, q: nat, k: int)
    requires Lists(m, ks) && cursor != Unset && q < |ks| && k == ks[q]
    requires cursor == Done <==> IsMaxKey(m, k)
    requires cursor.At? ==> cursor.node < |nodes| && IsNextKey(m, k, nodes[cursor.node].key)
    ensures CursorAt(nodes, cursor, ks, q + 1)
  {
    LastIsMax(m, ks, q);
    if cursor.At? {
      NextIsFollowing(m, ks, q, nodes[cursor.node].key);
    }
  }

  lemma EmptyWhenNoNodes<V>(nodes: seq<Node<V>>)
    requires |nodes| == 0
    ensures Entries(nodes) == map[]
  {
  }

  lemma EmptyListing<V>(m: map<int, V>, ks: seq<int>)
    requires Lists(m, ks)
    ensures m == map[] <==> |ks| == 0
  {
    if |ks| > 0 {
      assert ks[0] in ks;
      assert ks[0] in m;
    } else {
      forall x | x in m
        ensures x in ks
      {
      }
      assert m.Keys == {};
    }
  }

  lemma PrefixStep(ks: seq<int>, q: nat)
    requires q < |ks|
    ensures ks[..q + 1] == ks[..q] + [ks[q]]
  {
  }

  lemma NotMaxBelowNext<V>(m: map<int, V>, k: int, r: int)
    requires IsNextKey(m, k, r)
    ensures !IsMaxKey(m, k)
  {
  }

  lemma MinIsFirst<V>(m: map<int, V>, ks: seq<int>, x: int)
    requires Lists(m, ks)
    requires IsMinKey(m, x)
    ensures 0 < |ks| && ks[0] == x
  {
    assert x in ks;
    assert ks[0] in m;
  }

  /** In a sorted listing of the keys, the key after position `q` is the next key. */
  lemma NextIsFollowing<V>(m: map<int, V>, ks: seq<int>, q: nat, x: int)
    requires Lists(m, ks)
    requires q < |ks| && IsNextKey(m, ks[q], x)
    ensures q + 1 < |ks| && ks[q + 1] == x
  {
    var a :| 0 <= a < |ks| && ks[a] == x;
    assert q < a;
    assert ks[q + 1] in m;
  }

  /** The key at position `q` is the largest exactly when `q` is the last position. */
  lemma LastIsMax<V>(m: map<int, V>, ks: seq<int>, q: nat)
    requires Lists(m, ks)
    requires q < |ks|
    ensures IsMaxKey(m, ks[q]) <==> q + 1 == |ks|
  {
    if q + 1 < |ks| {
      assert ks[q + 1] in m;
    } else {
      forall x | x in m
        ensures x <= ks[q]
      {
        var a :| 0 <= a < |ks| && ks[a] == x;
      }
    }
  }
}
