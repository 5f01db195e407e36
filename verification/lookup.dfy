/**
  The read-only queries: `search`, `operator[]` and `operator()`.
 */
module Lookup {
  import opened Bstt
  import opened Descent

  /** `search`: reports whether `key` is stored and, if so, its value. On a
      miss the caller's variable `value0` comes back untouched. */
  method Search<V>(t: Tree<V>, key: int, value0: V) returns (found: bool, value: V)
    requires Valid(t)
    ensures found <==> key in Contents(t)
    ensures found ==> value == Contents(t)[key]
    ensures !found ==> value == value0
  {
    ghost var L := LayoutOf(t.nodes, t.root);
    var cur := t.root;
    if cur.Some? {
      RootBrackets(t.nodes, cur.value, L, key);
    }
    while cur.Some?
      invariant cur.Some? ==> cur.value < |t.nodes| && Brackets(t.nodes, L, key, cur.value)
      invariant cur.None? ==> key !in Contents(t)
      decreases Width(t.nodes, L, cur)
    {
      var c := cur.value;
      var nd := t.nodes[c];
      if key == nd.key {
        FoundAt(t.nodes, L, c);
        return true, nd.value;
      }
      if key < nd.key {
        DescendLeft(t.nodes, L, key, c);
        if nd.left.None? {
          RankedAbsent(t.nodes, L, key, L.pos[c]);
        }
        cur := nd.left;
      } else {
        DescendRight(t.nodes, L, key, c);
        match nd.right {
          case Child(j) =>
            cur := Some(j);
          case _ =>
            RankedAbsent(t.nodes, L, key, L.pos[c] + 1);
            cur := None;
        }
      }
    }
    return false, value0;
  }

  /** `operator[]`: the stored value, or `zero` (the default-constructed
      `ValueT{}`) when the key is absent. */
  method Index<V>(t: Tree<V>, key: int, zero: V) returns (value: V)
    requires Valid(t)
    ensures key in Contents(t) ==> value == Contents(t)[key]
    ensures key !in Contents(t) ==> value == zero
  {
    var found;
    found, value := Search(t, key, zero);
    if !found {
      value := zero;
    }
  }

  /** `operator()`: the key held by the node that `key`'s right pointer
      reaches, thread or real child alike; `0` (the default `KeyT{}`) when
      `key` is absent or its right pointer is null. */
  method RightKey<V>(t: Tree<V>, key: int) returns (r: int)
    requires Valid(t)
    ensures key !in Contents(t) ==> r == 0
    ensures key in Contents(t) && IsMaxKey(Contents(t), key) ==> r == 0
    ensures key in Contents(t) && !IsMaxKey(Contents(t), key) ==> r in Contents(t) && key < r
    ensures forall i :: 0 <= i < |t.nodes| && t.nodes[i].key == key && t.nodes[i].right.Thread? ==>
              IsNextKey(Contents(t), key, r)
    ensures forall i :: 0 <= i < |t.nodes| && t.nodes[i].key == key && t.nodes[i].right.Child? ==>
              r == t.nodes[t.nodes[i].right.to].key
  {
    var at := FindLinked(t, key);
    match at {
      case Some(c) =>
        r := t.nodes[t.nodes[c].right.to].key;
        FoundAnswer(t, LayoutOf(t.nodes, t.root), c, r);
      case None =>
        r := 0;
        NoAnswer(t, key);
    }
  }

  /** The descent of `operator()`: the node holding `key` when its right
      pointer is not null; otherwise none, and then `key` is absent or the
      largest key. */
  method FindLinked<V>(t: Tree<V>, key: int) returns (at: Option<nat>)
    requires Valid(t)
    ensures at.Some? ==> var c := at.value;
      c < |t.nodes| && t.nodes[c].key == key && !t.nodes[c].right.Null? && t.nodes[c].right.to < |t.nodes|
    ensures at.None? ==> key !in Contents(t) || IsMaxKey(Contents(t), key)
    ensures at.None? ==> forall i :: 0 <= i < |t.nodes| && t.nodes[i].key == key ==> t.nodes[i].right.Null?
  {
    ghost var L := LayoutOf(t.nodes, t.root);
    var cur := t.root;
    if cur.Some? {
      RootBrackets(t.nodes, cur.value, L, key);
    }
    while cur.Some?
      invariant cur.Some? ==> cur.value < |t.nodes| && Brackets(t.nodes, L, key, cur.value)
      invariant cur.None? ==> key !in Contents(t) || IsMaxKey(Contents(t), key)
      invariant cur.None? ==> forall i :: 0 <= i < |t.nodes| && t.nodes[i].key == key ==> t.nodes[i].right.Null?
      decreases Width(t.nodes, L, cur)
    {
      var c := cur.value;
      var nd := t.nodes[c];
      if key == nd.key && !nd.right.Null? {
        return Some(c);
      }
      if key < nd.key {
        DescendLeft(t.nodes, L, key, c);
        if nd.left.None? {
          RankedAbsent(t.nodes, L, key, L.pos[c]);
          NoNodeHolds(t, key);
        }
        cur := nd.left;
      } else if key == nd.key {
        // the right pointer is null: `key` is the largest key
        NullOnly(t, L, c);
        cur := None;
      } else {
        DescendRight(t.nodes, L, key, c);
        match nd.right {
          case Child(j) =>
            cur := Some(j);
          case _ =>
            RankedAbsent(t.nodes, L, key, L.pos[c] + 1);
            NoNodeHolds(t, key);
            cur := None;
        }
      }
    }
    return None;
  }

  /** An absent key is held by no node. */
  lemma NoNodeHolds<V>(t: Tree<V>, key: int)
    requires key !in Contents(t)
    ensures forall i :: 0 <= i < |t.nodes| ==> t.nodes[i].key != key
  {
    EntriesKeys(t.nodes, key);
  }

  /** A node with a null right pointer holds the largest key, and no other
      node holds it. */
  lemma NullOnly<V>(t: Tree<V>, L: Layout, c: nat)
    requires Valid(t) && Shaped(t.nodes, t.root, L) && c < |t.nodes| && t.nodes[c].right.Null?
    ensures IsMaxKey(Contents(t), t.nodes[c].key)
    ensures forall i :: 0 <= i < |t.nodes| && t.nodes[i].key == t.nodes[c].key ==> i == c
  {
    NullIsMax(t, L, c);
    ArrangedUnique(t.nodes, L);
  }

  /** What `operator()` promises for `key` and its answer `r`. */
  ghost predicate RightAnswer<V>(t: Tree<V>, key: int, r: int)
  {
    && (key !in Contents(t) ==> r == 0)
    && (key in Contents(t) && IsMaxKey(Contents(t), key) ==> r == 0)
    && (key in Contents(t) && !IsMaxKey(Contents(t), key) ==> r in Contents(t) && key < r)
    && (forall i :: 0 <= i < |t.nodes| && t.nodes[i].key == key && t.nodes[i].right.Thread? ==>
          IsNextKey(Contents(t), key, r))
    && (forall i :: 0 <= i < |t.nodes| && t.nodes[i].key == key && t.nodes[i].right.Child? ==>
          t.nodes[i].right.to < |t.nodes| && r == t.nodes[t.nodes[i].right.to].key)
  }

  /** The answer read off a node holding `key` with a non-null right pointer. */
  lemma FoundAnswer<V>(t: Tree<V>, L: Layout, c: nat, r: int)
    requires Valid(t) && Shaped(t.nodes, t.root, L) && c < |t.nodes| && !t.nodes[c].right.Null?
    requires t.nodes[c].right.to < |t.nodes| && r == t.nodes[t.nodes[c].right.to].key
    ensures RightAnswer(t, t.nodes[c].key, r)
  {
    RightKeyFound(t, L, c);
  }

  /** `0` answers for a key that is absent or whose every node has a null
      right pointer. */
  lemma NoAnswer<V>(t: Tree<V>, key: int)
    requires Valid(t)
    requires key !in Contents(t) || IsMaxKey(Contents(t), key)
    requires forall i :: 0 <= i < |t.nodes| && t.nodes[i].key == key ==> t.nodes[i].right.Null?
    ensures RightAnswer(t, key, 0)
  {
  }

  /** Node `c`'s right pointer reaches a larger key, and through a thread the next one. */
  lemma RightKeyFound<V>(t: Tree<V>, L: Layout, c: nat)
    requires Valid(t) && Shaped(t.nodes, t.root, L) && c < |t.nodes| && !t.nodes[c].right.Null?
    ensures t.nodes[c].right.to < |t.nodes|
    ensures var k := t.nodes[c].key; var r := t.nodes[t.nodes[c].right.to].key;
      && k in Contents(t) && !IsMaxKey(Contents(t), k)
      && r in Contents(t) && k < r
      && (t.nodes[c].right.Thread? ==> IsNextKey(Contents(t), k, r))
    ensures forall i :: 0 <= i < |t.nodes| && t.nodes[i].key == t.nodes[c].key ==> i == c
  {
    var nodes := t.nodes;
    var j := nodes[c].right.to;
    assert NodeOk(nodes, L, c);
    assert NodeOk(nodes, L, j);
    FoundAt(nodes, L, c);
    FoundAt(nodes, L, j);
    ArrangedUnique(nodes, L);
    if nodes[c].right.Thread? {
      RankNext(nodes, L, c, j);
    }
  }

  /** A node with a null right pointer holds the largest key. */
  lemma NullIsMax<V>(t: Tree<V>, L: Layout, c: nat)
    requires Valid(t) && Shaped(t.nodes, t.root, L) && c < |t.nodes| && t.nodes[c].right.Null?
    ensures IsMaxKey(Contents(t), t.nodes[c].key)
  {
    assert NodeOk(t.nodes, L, c);
    RankLast(t.nodes, L, c);
  }
}
