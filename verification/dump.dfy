/**
  `dump`: the size, then one line per node in inorder. A node whose right
  pointer is a thread carries the key that thread reaches; every other node
  (a real right child, or the null pointer after the largest key) gets the
  plain pair. The stream itself is left out; the lines are returned.
 */
module Dump {
  import opened Bstt
  import opened Descent
  import opened Lifecycle

  datatype Line<V> = Pair(key: int, value: V) | Triple(key: int, value: V, next: int)

  /** The line `_print` writes for node `i`. */
  ghost predicate LineFor<V>(nodes: seq<Node<V>>, i: nat, line: Line<V>)
    requires i < |nodes|
  {
    && line.key == nodes[i].key && line.value == nodes[i].value
    && match nodes[i].right {
         case Thread(j) => j < |nodes| && line == Triple(nodes[i].key, nodes[i].value, nodes[j].key)
         case _ => line.Pair?
       }
  }

  /** The node holding `k` has a thread for its right pointer. */
  ghost predicate Threaded<V>(t: Tree<V>, k: int)
  {
    exists i :: 0 <= i < |t.nodes| && t.nodes[i].key == k && t.nodes[i].right.Thread?
  }

  /** `lines` are the lines of the nodes ranked `lo` to `hi - 1`, in that order. */
  ghost predicate LinesOf<V>(nodes: seq<Node<V>>, L: Layout, lines: seq<Line<V>>, lo: nat, hi: nat)
    requires Ranked(|nodes|, L)
  {
    && lo <= hi <= |nodes| && |lines| == hi - lo
    && forall q :: 0 <= q < |lines| ==> LineFor(nodes, L.order[lo + q], lines[q])
  }

  /** `_print`: the lines of the subtree at `cur`, in rank order. */
  method PrintFrom<V>(t: Tree<V>, ghost L: Layout, cur: Option<nat>) returns (lines: seq<Line<V>>)
    requires Valid(t) && Shaped(t.nodes, t.root, L) && (cur.Some? ==> cur.value < |t.nodes|)
    ensures cur.None? ==> lines == []
    ensures cur.Some? ==> LinesOf(t.nodes, L, lines, L.lo[cur.value], L.hi[cur.value])
    decreases Width(t.nodes, L, cur)
  {
    match cur {
      case None =>
        lines := [];
      case Some(c) =>
        var nd := t.nodes[c];
        ChildRanges(t.nodes, L, c);
        var before := PrintFrom(t, L, nd.left);
        var line;
        var after := [];
        if nd.right.Thread? {
          line := Triple(nd.key, nd.value, t.nodes[nd.right.to].key);
        } else {
          line := Pair(nd.key, nd.value);
          if nd.right.Child? {
            after := PrintFrom(t, L, Some(nd.right.to));
          }
        }
        lines := before + [line] + after;
        JoinLines(t.nodes, L, c, before, line, after);
    }
  }

  lemma JoinLines<V>(nodes: seq<Node<V>>, L: Layout, c: nat, before: seq<Line<V>>, line: Line<V>, after: seq<Line<V>>)
    requires Ranked(|nodes|, L) && c < |nodes| && L.lo[c] <= L.pos[c] < L.hi[c] <= |nodes|
    requires LinesOf(nodes, L, before, L.lo[c], L.pos[c])
    requires LineFor(nodes, c, line)
    requires LinesOf(nodes, L, after, L.pos[c] + 1, L.hi[c])
    ensures LinesOf(nodes, L, before + [line] + after, L.lo[c], L.hi[c])
  {
    var lines := before + [line] + after;
    assert L.order[L.pos[c]] == c;
    forall q | 0 <= q < |lines|
      ensures LineFor(nodes, L.order[L.lo[c] + q], lines[q])
    {
      if q < |before| {
        assert lines[q] == before[q];
      } else if q > |before| {
        assert lines[q] == after[q - |before| - 1];
      }
    }
  }

  /** `dump`: `size()` lines, one per key in ascending order with its value;
      a threaded line names the next larger key, and the largest key's line
      is a plain pair. */
  method Dump<V>(t: Tree<V>) returns (size: int, lines: seq<Line<V>>)
    requires Valid(t)
    ensures size == Size(t) && |lines| == size
    ensures forall q :: 0 <= q < |lines| ==>
      && lines[q].key == Inorder(t)[q]
      && lines[q].key in Contents(t) && Contents(t)[lines[q].key] == lines[q].value
    ensures forall q :: 0 <= q < |lines| ==> (lines[q].Triple? <==> Threaded(t, lines[q].key))
    ensures forall q :: 0 <= q < |lines| && lines[q].Triple? ==> IsNextKey(Contents(t), lines[q].key, lines[q].next)
    ensures 0 < |lines| ==> lines[|lines| - 1].Pair?
  {
    ghost var L := LayoutOf(t.nodes, t.root);
    size := t.size;
    ValidSize(t);
    lines := PrintFrom(t, L, t.root);
    forall q | 0 <= q < |lines|
      ensures lines[q].key == Inorder(t)[q]
      ensures lines[q].key in Contents(t) && Contents(t)[lines[q].key] == lines[q].value
      ensures lines[q].Triple? <==> Threaded(t, lines[q].key)
      ensures lines[q].Triple? ==> IsNextKey(Contents(t), lines[q].key, lines[q].next)
      ensures q == |lines| - 1 ==> lines[q].Pair?
    {
      LineFacts(t, L, L.order[q], lines[q]);
    }
  }

  lemma LineFacts<V>(t: Tree<V>, L: Layout, i: nat, line: Line<V>)
    requires Valid(t) && Shaped(t.nodes, t.root, L) && i < |t.nodes| && LineFor(t.nodes, i, line)
    ensures line.key in Contents(t) && Contents(t)[line.key] == line.value
    ensures line.Triple? <==> Threaded(t, line.key)
    ensures line.Triple? ==> IsNextKey(Contents(t), line.key, line.next)
    ensures L.pos[i] == |t.nodes| - 1 ==> line.Pair?
  {
    assert NodeOk(t.nodes, L, i);
    FoundAt(t.nodes, L, i);
    ArrangedUnique(t.nodes, L);
    if t.nodes[i].right.Thread? {
      RankNext(t.nodes, L, i, t.nodes[i].right.to);
    }
  }
}
