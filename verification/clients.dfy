/**
  Properties a client sees across several calls: a lookup after an insert,
  and the traversal of a copy or of an assigned tree.
 */
module Clients {
  import opened Bstt
  import opened Lookup
  import opened Insertion
  import opened Traversal
  import opened Lifecycle
  import opened Shape
  import opened Dump

  /** `insert` then `search`: the inserted key is found with its first value,
      and every other key answers as it did before. */
  method InsertThenSearch<V>(t: Tree<V>, key: int, value: V, probe: int, value0: V) returns (found: bool, got: V)
    requires Valid(t)
    ensures probe == key ==> found && got == (if key in Contents(t) then Contents(t)[key] else value)
    ensures probe != key ==> (found <==> probe in Contents(t))
    ensures probe != key && found ==> got == Contents(t)[probe]
    ensures probe != key && !found ==> got == value0
  {
    var t' := Insert(t, key, value);
    found, got := Search(t', probe, value0);
  }

  /** Keys inserted in ascending order form a chain of real right children,
      so `operator()` on the first key names the second, and on the largest
      key gives the default `0`. */
  method AscendingChain() returns (r10: int, r30: int)
    ensures r10 == 20 && r30 == 0
  {
    var t0 := EmptyTree<int>();
    var t1 := Insert(t0, 10, 1);
    assert t1.nodes[0] == Node(10, 1, None, Null);
    var t2 := Insert(t1, 20, 2);
    ghost var c2 :| 0 <= c2 < 1 && Relinked(t1.nodes, t2.nodes, c2, 20);
    assert t2.nodes[0] == Node(10, 1, None, Child(1));
    assert t2.nodes[1] == Node(20, 2, None, Null);
    assert 30 !in Contents(t2) by {
      EntriesKeys(t2.nodes, 30);
    }
    var t3 := Insert(t2, 30, 3);
    ghost var c3 :| 0 <= c3 < 2 && Relinked(t2.nodes, t3.nodes, c3, 30);
    assert c3 == 1;
    assert t3.nodes[0] == Node(10, 1, None, Child(1));
    assert t3.nodes[1] == Node(20, 2, None, Child(2));
    r10 := RightKey(t3, 10);
    r30 := RightKey(t3, 30);
    assert 30 in Contents(t3) && IsMaxKey(Contents(t3), 30) by {
      forall x | x in Contents(t3)
        ensures x <= 30
      {
        EntriesKeys(t3.nodes, x);
      }
    }
  }

  /** A copy, and a tree assigned from the same source, walk through exactly
      the keys of the source, in the same order. */
  method CopyWalk<V>(src: Tree<V>, other: Tree<V>) returns (keysSrc: seq<int>, keysCopy: seq<int>, keysAssigned: seq<int>)
    requires Valid(src) && Valid(other)
    ensures keysCopy == keysSrc && keysAssigned == keysSrc
    ensures StrictlyIncreasing(keysSrc) && forall k :: k in keysSrc <==> k in Contents(src)
  {
    var t;
    keysSrc, t := Walk(src);
    var copy := CopyOf(src);
    keysCopy, t := Walk(copy);
    ListingUnique(keysCopy, keysSrc);
    var target := Assign(other, src);
    keysAssigned, t := Walk(target);
    ListingUnique(keysAssigned, keysSrc);
  }

  /** `operator()` gives the same answer on a copy as on its source, for
      every key, present or not: the copy has the same real right children,
      so it also threads the same keys. */
  method CopyAnswersAlike<V>(src: Tree<V>, k: int) returns (r: int, r': int)
    requires Valid(src)
    ensures r' == r
  {
    var copy := CopyOf(src);
    r := RightKey(src, k);
    r' := RightKey(copy, k);
    if k in Contents(src) {
      EntriesKeys(src.nodes, k);
      ghost var i :| 0 <= i < |src.nodes| && src.nodes[i].key == k;
      EntriesKeys(copy.nodes, k);
      ghost var j :| 0 <= j < |copy.nodes| && copy.nodes[j].key == k;
      SameAnswer(src, copy, i, j, r, r');
    }
  }

  /** `dump` prints the same size and the same lines for a copy as for its
      source: the copy threads exactly the keys the source threads. */
  method CopyDumpsAlike<V>(src: Tree<V>) returns (size: int, lines: seq<Line<V>>, size': int, lines': seq<Line<V>>)
    requires Valid(src)
    ensures size' == size && lines' == lines
  {
    var copy := CopyOf(src);
    size, lines := Dump.Dump(src);
    size', lines' := Dump.Dump(copy);
    InorderSorted(src);
    InorderSorted(copy);
    ListingUnique(Inorder(copy), Inorder(src));
    forall q | 0 <= q < |lines|
      ensures lines'[q] == lines[q]
    {
      SameThreads(src, copy, lines[q].key);
    }
  }

  /** Trees with the same map and the same real-right-child pairs thread the
      same keys. */
  lemma SameThreads<V>(t: Tree<V>, u: Tree<V>, k: int)
    requires Valid(t) && Valid(u) && Contents(t) == Contents(u) && RightPairs(t.nodes) == RightPairs(u.nodes)
    ensures Threaded(t, k) <==> Threaded(u, k)
  {
    NodeKeys(t.nodes);
    NodeKeys(u.nodes);
    if k in Contents(t) {
      EntriesKeys(t.nodes, k);
      var i :| 0 <= i < |t.nodes| && t.nodes[i].key == k;
      EntriesKeys(u.nodes, k);
      var j :| 0 <= j < |u.nodes| && u.nodes[j].key == k;
      SameRightLinks(t, u, i, j);
      ThreadedAt(t, i);
      ThreadedAt(u, j);
    }
  }

  /** A key is threaded exactly when its one node has a thread. */
  lemma ThreadedAt<V>(t: Tree<V>, i: nat)
    requires Valid(t) && i < |t.nodes|
    ensures Threaded(t, t.nodes[i].key) <==> t.nodes[i].right.Thread?
  {
    ArrangedUnique(t.nodes, LayoutOf(t.nodes, t.root));
    if Threaded(t, t.nodes[i].key) {
      var m :| 0 <= m < |t.nodes| && t.nodes[m].key == t.nodes[i].key && t.nodes[m].right.Thread?;
      assert m == i;
    }
  }

  /** What `operator()` promises at the node `i` holding the key: through a
      real child its key, through a thread the next larger key, and `0` at
      the largest key. */
  ghost predicate AnswersAt<V>(t: Tree<V>, i: nat, r: int)
    requires i < |t.nodes|
  {
    var k := t.nodes[i].key;
    && (t.nodes[i].right.Child? ==> t.nodes[i].right.to < |t.nodes| && r == t.nodes[t.nodes[i].right.to].key)
    && (t.nodes[i].right.Thread? ==> IsNextKey(Contents(t), k, r))
    && (IsMaxKey(Contents(t), k) ==> r == 0)
  }

  /** Two trees that link every key alike give the same `operator()` answer. */
  lemma SameAnswer<V>(t: Tree<V>, u: Tree<V>, i: nat, j: nat, r: int, r': int)
    requires Valid(t) && Valid(u) && Contents(t) == Contents(u) && RightPairs(t.nodes) == RightPairs(u.nodes)
    requires i < |t.nodes| && j < |u.nodes| && t.nodes[i].key == u.nodes[j].key
    requires AnswersAt(t, i, r) && AnswersAt(u, j, r')
    ensures r == r'
  {
    SameRightLinks(t, u, i, j);
    if t.nodes[i].right.Null? {
      RightLinkOfKey(t, i);
    }
  }

  /** Two well-formed trees with the same map and the same real-right-child
      pairs link a key alike: through real children holding the same key,
      both by a thread, or both with a null pointer. */
  lemma SameRightLinks<V>(t: Tree<V>, u: Tree<V>, i: nat, j: nat)
    requires Valid(t) && Valid(u) && Contents(t) == Contents(u) && RightPairs(t.nodes) == RightPairs(u.nodes)
    requires i < |t.nodes| && j < |u.nodes| && t.nodes[i].key == u.nodes[j].key
    ensures t.nodes[i].right.Child? <==> u.nodes[j].right.Child?
    ensures t.nodes[i].right.Null? <==> u.nodes[j].right.Null?
    ensures t.nodes[i].right.Child? && u.nodes[j].right.Child? ==>
      && t.nodes[i].right.to < |t.nodes| && u.nodes[j].right.to < |u.nodes|
      && t.nodes[t.nodes[i].right.to].key == u.nodes[u.nodes[j].right.to].key
  {
    RightLinkOfKey(t, i);
    RightLinkOfKey(u, j);
    if !t.nodes[i].right.Null? {
      RightKeyFound(t, LayoutOf(t.nodes, t.root), i);
    }
    if !u.nodes[j].right.Null? {
      RightKeyFound(u, LayoutOf(u.nodes, u.root), j);
    }
  }

  /** A strictly increasing listing of a set of keys is unique. */
  lemma {:induction false} ListingUnique(xs: seq<int>, ys: seq<int>)
    requires StrictlyIncreasing(xs) && StrictlyIncreasing(ys)
    requires forall x :: x in xs <==> x in ys
    ensures xs == ys
    decreases |xs|
  {
    if |xs| == 0 {
      assert forall y :: y !in ys;
    } else {
      assert xs[0] in xs;
      var j0 :| 0 <= j0 < |ys| && ys[j0] == xs[0];
      assert ys[0] in ys;
      var i0 :| 0 <= i0 < |xs| && xs[i0] == ys[0];
      assert xs[0] <= xs[i0] && ys[0] <= ys[j0];
      var xs', ys' := xs[1..], ys[1..];
      forall x
        ensures x in xs' <==> x in ys'
      {
        if x in xs' {
          var i :| 0 <= i < |xs'| && xs'[i] == x;
          assert xs[i + 1] == x && xs[0] < x && x in xs;
          var j :| 0 <= j < |ys| && ys[j] == x;
          assert j != 0;
          assert ys'[j - 1] == x;
        }
        if x in ys' {
          var j :| 0 <= j < |ys'| && ys'[j] == x;
          assert ys[j + 1] == x && ys[0] < x && x in ys;
          var i :| 0 <= i < |xs| && xs[i] == x;
          assert i != 0;
          assert xs'[i - 1] == x;
        }
      }
      ListingUnique(xs', ys');
    }
  }
}
