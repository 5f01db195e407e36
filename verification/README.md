# Threaded binary search tree, modelled in Dafny

This project models `bstt<KeyT, ValueT>`, a right-threaded binary search tree
with no deletion. A node's right pointer is either a real child or a thread.
A thread points to the node holding the next larger key, or is null after the
largest key.

The model covers:

- `insert` with its thread fix-up;
- the queries `search`, `operator[]` and `operator()`;
- the stack-free traversal `begin`/`next` (with `_begin`);
- the teardown `clear`/`_clear`;
- the deep copy `_copy`, the copy constructor and `operator=`;
- `size()`, the default constructor and the `dump` line layout (`_print`).

Keys are `int`. Values are a type parameter `V`.

## Modelling choices

- **Nodes.** They live in an arena, `seq<Node<V>>`, addressed by index.
  - `insert` appends; nothing is ever removed except by `clear`, which drops the whole arena.
  - A node's `isThreaded` flag and `Right` pointer together are one tagged link: `Child(i)`, `Thread(i)` or `Null`.
  - `Null` is a threaded node whose `Right` is `nullptr`.
- **Well-formedness.** `Bstt.Valid` asks for a ghost `Layout` witness. It gives each node:
  - its inorder rank;
  - the range of ranks its subtree holds.

  Every shape condition is then local to one node:
  - a left child holds the ranks just below its parent;
  - a real right child holds the ranks just above it;
  - a thread reaches the very next rank;
  - the node a thread reaches has a left child (the threaded node is the last of that left subtree);
  - a null right pointer marks the last rank.

  Keys increase with rank.
- **Abstraction.**
  - `Bstt.Contents` is the key-to-value map the tree holds.
  - `Bstt.Inorder` is its key sequence in rank order.
- **Cursor.** The traversal cursor `Current` is `Unset` before any `begin` (the C++ member is uninitialised), `At(i)`, or `Done` (null).
  - `clear` turns `At` into `Unset`, since the node it named is gone.
- **Defaults.**
  - The default value `ValueT{}` is the caller-supplied parameter `zero` of `Lookup.Index`.
  - `KeyT{}` is `0`.
- **Deletion order.** `_clear`'s deletions are the sequence of node indices returned by `Lifecycle.Teardown`.
- **`operator()` through a real child** returns the key of the right subtree's root, which need not be the next larger key. `Insertion.Insert` states where each new node is linked, so the answer is determined after any sequence of inserts.
- **Copies are values.** A copy shares nothing with its source: inserting into one cannot change the other.
- **Shape of a copy.** Node indices differ between a copy and its source, so the two shapes are compared by key.
  - `Shape.LeftPairs` is the set of (parent key, left child key) pairs.
  - `Shape.RightPairs` is the same for real right children.
  - A copy has the same map and the same two pair sets as its source. Threads are then fixed as well: a key has a thread exactly when it has no real right child and is not the largest.
- **`dump` output.** `dump` returns the size it prints and the list of `Dump.Line`s instead of writing to a stream.

## Model

| member | source | states |
|---|---|---|
| Bstt.EmptyTree | bstt.h:141-145 | a new tree is well formed, has no root, maps nothing and has size 0 |
| Bstt.Size | bstt.h:204-207 | the stored count is the number of distinct keys the tree maps |
| Bstt.InorderSorted | bstt.h:26-37 | in any well-formed tree the inorder keys strictly increase, there are `Size` of them, and they are exactly the mapped keys |
| Lookup.Search | bstt.h:218-253 | true exactly when the key is mapped; then the value is the mapped one, otherwise the caller's value is untouched |
| Lookup.Index | bstt.h:335-348 | the mapped value for a present key, the default value for an absent one |
| Lookup.FindLinked | bstt.h:365-392 | the descent stops at the node holding the key when its right pointer is not null; when it finds none, the key is absent or the largest, and every node holding it has a null right pointer |
| Lookup.RightKey | bstt.h:363-395 | `0` for an absent key or the largest key. Otherwise a larger mapped key. Through a thread it is the next larger key; through a real child it is that child's key |
| Lookup.RightKeyFound | bstt.h:371-374 | a node with a non-null right pointer holds a mapped, non-largest key, and it is the only node with that key. Its right pointer reaches a larger mapped key, and the next larger one when it is a thread |
| Lookup.NullIsMax | bstt.h:380-385 | a node whose right pointer is null holds the largest key |
| Insertion.Insert | bstt.h:263-325 | keeps the tree well formed. A present key leaves the tree exactly as it was, so the first value wins. An absent key is added with its value, every other key keeps its value, and the size grows by one. The new node is appended with no left child. It becomes the root of an empty tree. Otherwise the root stays and exactly one old node changes. When the key is smaller, that node holds the next larger key, and its null left pointer becomes the new node, which threads back to it. When the key is larger, that node holds the next smaller key, and its thread or null becomes a real right child; the new node takes over that thread |
| Insertion.Place | bstt.h:293-324 | once the descent has fallen out below `prev` (or found an empty tree), the new node is planted as the root or linked below `prev` on the side its key calls for, and the tree stays well formed |
| Insertion.AttachLeftNodeOk | bstt.h:311-316 | attaching the new node as the left child of the node it fell out below, with a thread back to that node, keeps each node's shape condition once the ranks from that node on move up by one |
| Insertion.AttachRightArranged | bstt.h:317-322 | making the new node the real right child of the node whose thread ended the descent keeps every shape condition. The new node inherits that thread |
| Insertion.AppendEntries | bstt.h:295-322 | relinking existing nodes and appending the new one adds exactly the new pair to the map |
| Descent.DescendLeft | bstt.h:274-278 | going left on a smaller key keeps the key within the subtree being searched; at a null left pointer the key's rank slot is found |
| Descent.DescendRight | bstt.h:279-290 | going right on a larger key keeps it within the subtree; at a thread or null pointer the key's rank slot is found |
| Descent.RankNext | bstt.h:444-448 | the node one rank higher, the one a thread reaches, holds the next larger key |
| Traversal.Leftmost | bstt.h:113-130 | null for a null subtree, otherwise a node with no left child holding the subtree's first rank |
| Traversal.Begin | bstt.h:413-417 | the cursor is null exactly when the tree is empty, and otherwise is on the smallest key; the tree is unchanged |
| Traversal.Next | bstt.h:439-463 | at a null cursor: false, with the key and the tree untouched. Otherwise: true with the cursor's key, then the cursor moves to the next larger key, or to null after the largest |
| Traversal.Walk | bstt.h:397-463 | `begin` then `next` until false yields the inorder keys: every mapped key once, strictly ascending, `size()` in all. It ends with a null cursor and the tree otherwise unchanged |
| Traversal.Drain | bstt.h:434-437 | the `while (next(key))` loop started at the smallest key yields the sorted key listing exactly, and leaves the cursor null |
| Lifecycle.Teardown | bstt.h:41-57 | the postorder teardown deletes every node of the subtree exactly once, never following a thread |
| Lifecycle.Clear | bstt.h:188-195 | every node is deleted exactly once; the tree is empty with size 0; on an empty tree nothing changes |
| Lifecycle.CopyFrom | bstt.h:62-80 | re-inserting a subtree in preorder adds its pairs to the destination, whose existing keys keep their values; the destination stays well formed and keeps its root, or gets the subtree's root key as root when it was empty. When the destination mirrors the source and holds the subtree's parent but nothing of the subtree, the destination still mirrors the source afterwards |
| Lifecycle.CopyBelow | bstt.h:71-77 | after a node itself is copied, its left subtree and then its real right child's subtree are copied, and a destination that mirrored the source still does |
| Lifecycle.SubtreeSplit | bstt.h:70-77 | a subtree's pairs are its left subtree's, its own and its real right child's, on pairwise disjoint keys |
| Lifecycle.CopyOf | bstt.h:150-156 | the copy is well formed. It has the source's map, size and root key, and the same left-child and real-right-child pairs, so the same shape up to node numbering. Its cursor is not yet set |
| Lifecycle.Assign | bstt.h:175-181 | after assignment the tree is well formed. It has the source's map, size and root key, and the same left-child and real-right-child pairs |
| Shape.MirrorStep | bstt.h:69-70 | inserting the next preorder node of the source into a copy that mirrors it keeps the mirror: the node lands under the copy of its source parent, on the same side |
| Shape.MirrorFirst | bstt.h:69-70 | the first node copied into an empty tree is a lone root, and the copy mirrors the source |
| Shape.MirrorLeft | bstt.h:69-71 | re-inserting the left child of an already copied node, none of whose subtree is copied, adds exactly that (parent, child) left pair to the copy, so the mirror is kept |
| Shape.MirrorRight | bstt.h:69-76 | re-inserting the real right child of an already copied node, none of whose subtree is copied, adds exactly that (parent, child) right pair to the copy, so the mirror is kept |
| Shape.AdjacentSlots | bstt.h:274-290 | a key strictly between two neighbouring keys of a well-formed tree finds a taken slot on at least one side: the larger neighbour has a left child or the smaller one a real right child |
| Shape.RelinkLeftPairs | bstt.h:311-316 | linking a new node as a left child adds exactly one left pair, (parent key, new key), and no right pair |
| Shape.RelinkRightPairs | bstt.h:317-322 | linking a new node as a real right child adds exactly one right pair, (parent key, new key), and no left pair |
| Shape.MirrorsAll | bstt.h:62-80 | a copy that mirrors its source and holds all of its keys has exactly the source's left and right pairs |
| Shape.RightLinkOfKey | bstt.h:363-395 | a key's real right child is the one right pair starting at that key, and a null right pointer marks the largest key |
| Clients.InsertThenSearch | bstt.h:263-325 | a `search` after `insert` finds the inserted key with its first value, and answers for every other key as before |
| Clients.AscendingChain | bstt.h:363-395 | after inserting 10, 20 and 30 in that order, `operator()` gives 20 for 10, through a real right child, and the default 0 for the largest key 30 |
| Clients.CopyWalk | bstt.h:150-181 | a copy, and a tree assigned from the same source, yield by `begin`/`next` exactly the source's key sequence |
| Clients.CopyAnswersAlike | bstt.h:363-395 | `operator()` gives the same answer on a copy as on its source, for every key |
| Clients.CopyDumpsAlike | bstt.h:471-489 | `dump` prints the same size and the same lines for a copy as for its source |
| Clients.SameRightLinks | bstt.h:74-76 | two trees with the same map and real-right-child pairs link each key alike: both through real children holding the same key, both by a thread, or both with a null pointer |
| Clients.ListingUnique | bstt.h:397-463 | two strictly increasing key sequences with the same members are equal, so a traversal's output is fixed by the map alone |
| Dump.PrintFrom | bstt.h:85-109 | `_print` emits one line per node of the subtree, in rank order. A threaded node with a successor gets a triple, any other node a pair |
| Dump.Dump | bstt.h:471-489 | `size()` lines, line q holding the q-th smallest key and its value. A line is a triple exactly when the node holding its key has a thread, and then it names the next larger key. The last line is a pair |

## Left out

- Memory management: `new`, `delete` and the destructor. Nodes are arena entries, and `clear` drops the arena.
- Self-assignment: in the C++, `a = a` clears `a` and then copies from the now empty `a`, so `a` ends up empty. The model's trees are values, so `Lifecycle.Assign(t, t)` copies from the unchanged `t` and keeps its map; the aliasing that empties the tree is not modelled.
- `next` before any `begin` reads an uninitialised pointer in the C++. `Traversal.Next` requires a cursor set by `Begin`.
- Overflow of the `int` counter `Size`: sizes are unbounded integers.
- Templates: keys are `int`, compared with `<`.
- The text stream of `dump`: the banner lines and `operator<<` formatting of keys and values are not modelled. The model returns the printed size and the lines as data.
- Complexity claims (logarithmic search and insert on average) are not stated.
