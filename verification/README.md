# LLRB ordered map — a verified Dafny model

This project models the ordered map in `RB.cpp`. The map is a binary search tree keyed by a totally ordered key. It keeps a `_size` counter and offers two mutation paths over the same node shape:

- **Balanced path.** `insert`/`insert_rb` and `erase`/`erase_rb` implement a left-leaning red-black (LLRB) tree. They use the helpers `isRed`, `rotate_left`, `rotate_right`, `flip_colors`, `move_red_left`, `move_red_right`, `fix_up` and `min_node`.
- **Traversal.** Iterators step with `operator++`/`operator--` by following parent links. On top of them sit `find`, `begin`/`cbegin`/`min()`, `max()`, `end`/`cend`, `equalRange`, and `min(key)`/`max(key)`.
- **Unbalanced path.** `insert_iterator` and `erase_iterator` are an iterative plain-BST insertion and a successor-copy deletion. They never touch colours.

The model is functional:

- A tree is an immutable datatype `Tree<V> = Leaf | Node(color, left, key, value, right)`. Keys are `int` and the value type is a parameter `V`.
- The container is the pair `Bst(root, size)`. `size` is a `size_t`, taken to be 64 bits wide (the width depends on the platform): an integer in `[0, 2^64)` with wrap-around written out.
- A null-pointer dereference in the source becomes `None` of an `Option`.
- An iterator is a zipper: the focused node's fields plus the path of frames from it up to the root. The parent link of the source is the first frame. `End` is the null iterator.

Correctness is stated against reference definitions on the in-order (key, value) walk:

- `InOrder(t)` is the walk. `Ordered(t)` is the search-tree order, proved equivalent to the walk being strictly sorted.
- `Upsert` and `Remove` are the intended map updates on a sorted sequence.
- `Index(c)` is an iterator's position in the walk of the tree it belongs to.
- `RedBlack(t)` is the LLRB invariant:
  - no red right link;
  - no red node with a red left child;
  - the same number of black nodes on every path;
  - a black root.

Modules:

| file | module | contents |
|---|---|---|
| option.dfy | `Maybe` | `Option` with the `:-` failure protocol |
| tree.dfy | `RbTree` | tree datatype, in-order walk, keys, order and balance predicates |
| entries.dfy | `Entries` | reference `Upsert`/`Remove` and their lemmas |
| balance.dfy | `Balance` | rotations, colour flip, move-red steps, fix-up, minimum |
| insert.dfy | `LlrbInsert` | `insert_rb` and its content and balance proofs |
| erase.dfy | `LlrbErase` | `erase_rb` and its ordering proof |
| container.dfy | `Container` | `insert`, `erase`, size bookkeeping, corrected variants |
| cursor.dfy | `Iterators` | zipper iterators, `++`, `--` |
| queries.dfy | `Queries` | `find`, `begin`, `max`, `equalRange`, `min(key)`, `max(key)` |
| plain_bst.dfy | `PlainBst` | `insert_iterator`, `erase_iterator` |
| scenarios.dfy | `Scenarios` | a worked insert/erase run of the balanced path |

## Where the code departs from textbook LLRB behaviour

The model follows the code in each case below.

- **`flip_colors` assigns colours instead of toggling them.** It sets the node RED and both children BLACK (RB.cpp:47-51).
  - In insertion this is only reached with two red children, so it acts like the textbook flip.
  - In `move_red_left`/`move_red_right` it does the opposite of the 2-3-4 borrow, so `erase` does not keep the LLRB invariants.
  - Insert 50, 30, 70, 20, 40, 60, 80, then erase 30. A textbook LLRB deletion keeps black balance; this code does not. It leaves the RED node 40 with a BLACK left child and no right child (`Scenarios.EraseBreaksBalance`).
  - Erasing 40 next unlinks 40 together with its left child 20 (RB.cpp:124-127), and 20 is lost (`Scenarios.EraseLosesEntry`).
- **Erasing a key that is absent from a non-empty tree is not a no-op.** It always dereferences null. The proof is in `Container.Erase`'s contract, and there is a concrete case in Findings.
- **Erasing a present key can dereference null too.** Insert 0, 1, 2, 3, then erase 0 (`Scenarios.ErasePresentCrashes`).
  - The tree is a valid red-black search tree: a BLACK 1 over a BLACK 0 and a BLACK 3, with 3's left child the RED 2.
  - `move_red_left` at the root (RB.cpp:118-119) leaves a RED 2 over a BLACK 1 whose right child is missing.
  - The descent into 1 (RB.cpp:120) calls `move_red_left` again, and RB.cpp:55 reads `h->right->left` through that missing child.
  - So `erase` is partial on present keys as well, and the membership guard of `Container.EraseChecked` does not prevent this case.
- **Erase on an empty tree returns early** (RB.cpp:110), so `_size` is unchanged there.
- **`insert` increments `_size` on every call** (RB.cpp:87), including calls that only overwrite a value (Findings).

## Model

| member | source | states |
|---|---|---|
| Balance.RotateLeft | RB.cpp:23-33 | the in-order walk and the key set are unchanged and search order is kept; the new head has the old head's colour, and the old head is now its RED left child |
| Balance.RotateRight | RB.cpp:35-45 | mirror of RotateLeft: walk, keys and order kept; new head takes the old colour; the old head is its RED right child |
| Balance.FlipColors | RB.cpp:47-51 | walk, keys and order kept; the head becomes RED and neither child is red afterwards (assignment, not toggle); no child appears or disappears |
| Balance.MoveRedLeft | RB.cpp:53-61 | dereferences null exactly when the right child is missing; otherwise returns a node with the same walk and keys, kept in search order, whose key is not below the old head's |
| Balance.MoveRedRight | RB.cpp:63-70 | dereferences null exactly when the left child is missing; otherwise same walk and keys, kept in order, head key not above the old head's |
| Balance.FixUp | RB.cpp:72-77 | returns a node with the same walk and keys, in search order if the input was |
| Balance.MinEntry | RB.cpp:79-82 | dereferences null exactly on an empty tree; otherwise yields the first entry of the walk, whose key is in the tree and, on a search tree, is not above any key |
| LlrbInsert.InsertFix | RB.cpp:103-105 | the three rebalancing steps keep the walk, the keys and the order |
| LlrbInsert.InsertRb | RB.cpp:90-107 | the result is a node whose key set is the old keys plus `key`; search order is kept |
| LlrbInsert.InsertRbContent | RB.cpp:90-107 | on a search tree the walk after insertion is the reference upsert: an existing key only gets the new value, a new key is added at its sorted place |
| LlrbInsert.InsertFixBalance | RB.cpp:103-105 | with a new RED leaf below, the three steps restore black balance and left-leaning shape and keep the black height |
| LlrbInsert.InsertRbBalance | RB.cpp:90-107 | on an LLRB tree insertion keeps black balance and black height; a black root yields a left-leaning tree, a red root stays red |
| LlrbErase.EraseRb | RB.cpp:116-139 | a normal return happens only if `key` was in the tree; then the keys shrink to a subset, the entry count drops, and every entry left is an old entry |
| LlrbErase.EraseLeft | RB.cpp:117-120 | the left-descent branch: the same guarantees as EraseRb |
| LlrbErase.EraseRight | RB.cpp:121-137 | the right-descent branch: the same guarantees as EraseRb |
| LlrbErase.EraseRbOrdered | RB.cpp:116-139 | on a search tree a normal return is a search tree without `key` |
| LlrbErase.EraseLeftOrdered | RB.cpp:117-120 | the same for the left-descent branch |
| LlrbErase.EraseRightOrdered | RB.cpp:121-137 | the same for the right-descent branch, including the copy of the right subtree's minimum into the head |
| RbTree.Paint | RB.cpp:86 | `_root->color = BLACK`: an empty tree stays empty; a node keeps its children and entry and takes the given colour |
| Container.Increment | RB.cpp:87 | `_size++` on a 64-bit `size_t`: one more, except that the largest value wraps to 0 |
| Container.Decrement | RB.cpp:113 | `_size--` on a 64-bit `size_t`: one less, except that 0 wraps to the largest value |
| Container.Insert | RB.cpp:84-88 | the root is a BLACK node, the keys are the old keys plus `key`, and `_size` is incremented on every call |
| Container.InsertCorrect | RB.cpp:84-107 | on a search tree the public insertion performs the reference upsert, keeps search order, and preserves the full red-black invariant |
| Container.Erase | RB.cpp:109-114 | empty tree: unchanged, size included; non-empty tree and absent key: null dereference; normal return: `_size` decremented, root not red, keys a subset, fewer entries |
| Container.EraseCorrect | RB.cpp:109-139 | on a search tree a normal return is a search tree without `key` whose entries all come from the old tree |
| Container.InsertOverwriteMiscounts | RB.cpp:84-88 | inserting key 1 twice reports size 2 for a one-entry tree, so `_size` stops counting entries |
| Container.InsertRbCount | RB.cpp:90-107 | on a search tree `insert_rb` adds exactly one entry for a new key and none for an existing one |
| Container.InsertCounted | RB.cpp:84-88 | the insertion with `_size` incremented only for a new key |
| Container.InsertCountedTracks | RB.cpp:84-88 | on a search tree the corrected insertion keeps `_size` equal to the entry count modulo 2^64 |
| Container.EraseAbsentCrashes | RB.cpp:63-70 | erasing 7 from the tree holding only 5 dereferences null in `move_red_right` |
| Container.EraseChecked | RB.cpp:109-114 | the erase guarded by a membership test: an absent key leaves the container unchanged; a change happens only for a present key, with `_size` decremented and fewer entries |
| Container.EraseCheckedAbsent | RB.cpp:109-114 | the guarded erase of 7 from the tree holding only 5 returns the tree unchanged |
| Iterators.IndexEntry | RB.cpp:186-188 | dereferencing an iterator gives the entry at its index in the walk of its tree |
| Iterators.Descend | RB.cpp:203-205 | the descent to the leftmost (rightmost) node stays in the same tree and stops at a node with no left (right) child |
| Iterators.Climb | RB.cpp:207-213 | the climb stays in the same tree |
| Iterators.Step | RB.cpp:202-236 | the shared body of `++` and `--`: into the subtree on the step's side and then to its far end, or else up; a result that is not `End` is in the same tree |
| Iterators.Next | RB.cpp:202-215 | `++` stays in the same tree and moves to the next index; it gives `End` exactly from the last entry |
| Iterators.Prev | RB.cpp:223-236 | `--` stays in the same tree and moves to the previous index; it gives `End` exactly from the first entry |
| Iterators.StepIndex | RB.cpp:202-236 | both step directions, stated on positions in the walk |
| Iterators.StepBack | RB.cpp:202-236 | a step that does not run off the end is undone by a step in the other direction |
| Iterators.NextPrev | RB.cpp:202-236 | `--` after a `++` that did not reach `End` returns to the same iterator |
| Iterators.PrevNext | RB.cpp:202-236 | `++` after a `--` that did not reach `End` returns to the same iterator |
| Queries.FindFrom | RB.cpp:396-408 | the binary search finds only a node holding `key`; on a search tree it finds `key` whenever it is present |
| Queries.Find | RB.cpp:396-422 | `find` points at an entry with `key` in the same tree; on a search tree it gives `End` exactly when `key` is absent |
| Queries.Begin | RB.cpp:502-510 | `begin`/`cbegin`/`min()`: `End` exactly on an empty tree, otherwise the first entry of the walk |
| Queries.Max | RB.cpp:464-472 | `max()`: `End` exactly on an empty tree, otherwise the last entry of the walk |
| Queries.BeginMaxKeys | RB.cpp:454-472 | on a search tree `min()` holds the smallest key and `max()` the largest |
| Queries.NextKey | RB.cpp:202-215 | on a search tree `++` reaches the next larger key, with no key in between, and `End` only from the largest |
| Queries.PrevKey | RB.cpp:223-236 | on a search tree `--` reaches the next smaller key, with no key in between, and `End` only from the smallest |
| Queries.EqualRange | RB.cpp:424-437 | `(End, End)` for an absent key; otherwise `first` is `find(key)`, every entry from `first` up to `last` has `key`, `last` has another key or is `End`, and on a search tree `last` is the successor of `first` |
| Queries.SelectForKey | RB.cpp:474-500 | the scan behind `min(key)`/`max(key)`: `End` exactly when `find` gives `End`, otherwise an entry with `key` at or after `find(key)`, and `find(key)` itself on a search tree |
| Queries.MinForKey | RB.cpp:474-486 | `min(key)`: `End` exactly when `key` is not found, otherwise an entry with `key`; `find(key)` on a search tree |
| Queries.MaxForKey | RB.cpp:488-500 | `max(key)`: the same guarantees with the comparison reversed |
| PlainBst.InsertSearch | RB.cpp:320-334 | the search loop stops at the node with `key` or at a node missing the child on `key`'s side, with every entry before the path below `key` and every entry after it above `key` |
| PlainBst.NewNode | RB.cpp:315 | `new Node(key, value)`: a childless node holding just this entry, coloured RED |
| PlainBst.Hang | RB.cpp:329-341 | the change at the stop of the search: `key` joins the keys, one entry more exactly when `key` was not at the stop, and on a search subtree the reference upsert |
| PlainBst.GrowLeft | RB.cpp:336-337 | hanging the new node as the missing left child of a node with a larger key adds `key`, adds one entry, and places it at its sorted position |
| PlainBst.GrowRight | RB.cpp:338-339 | hanging the new node as the missing right child of a node with a smaller key adds `key` and one entry, at its sorted position when the node is a search tree |
| PlainBst.Overwrite | RB.cpp:329-332 | overwriting the value of the node holding `key` keeps the keys and the entry count; on a search tree it is the reference upsert |
| PlainBst.InsertAt | RB.cpp:336-341 | a change below a search path that upserts the subtree's walk upserts the whole tree's walk, keeps search order, and keeps the entry count exactly when `key` was present |
| PlainBst.HangAt | RB.cpp:329-341 | hanging a new node at the stop, or overwriting there, adds `key` to the keys and at most one entry; on a search tree it performs the reference upsert and adds an entry exactly when `key` was absent |
| PlainBst.InsertIterator | RB.cpp:313-342 | empty tree: one new node and size 1; otherwise the keys gain `key`, `_size` keeps counting the entries, and on a search tree the walk is the reference upsert with size unchanged exactly for a present key |
| PlainBst.EraseSearch | RB.cpp:349-356 | the search loop stops at the node holding `key` or falls off the tree, within the same tree; on a search tree every entry before its path is below `key` and every entry after it is above |
| PlainBst.NotFound | RB.cpp:349-358 | a search that runs off the tree of a search tree proves `key` absent |
| PlainBst.Successor | RB.cpp:363-368 | the leftmost node of the right subtree, with no left child, reached by left steps only |
| PlainBst.SpliceSuccessor | RB.cpp:371-392 | copying the successor's entry into the node and splicing the successor's right child into its place leaves the node's two subtrees' entries in order |
| PlainBst.Unlinked | RB.cpp:377-392 | the replacement subtree loses exactly the node's entry: keys a subset, one entry fewer, and on a search tree the reference removal |
| PlainBst.Unlink | RB.cpp:362-392 | the subtree that replaces the found node walks its left subtree's entries and then its right subtree's: only the node's own entry disappears |
| PlainBst.EraseAt | RB.cpp:385-391 | a change below a search path that removes `key` from the subtree's walk removes it from the whole tree's walk and keeps search order |
| PlainBst.EraseIterator | RB.cpp:344-394 | either nothing changes or `key` was present and `_size` is decremented with one entry fewer; keys shrink; `_size` keeps counting the entries; on a search tree the walk is the reference removal, and nothing changes exactly when `key` is absent |
| Scenarios.BuildSteps | RB.cpp:84-107 | inserting 50, 30 and 70 into the empty map gives a BLACK 50, then a RED 30 left of it, then an all-BLACK three-node tree (the flip at the root followed by the root repaint) |
| Scenarios.BuildStep4 | RB.cpp:84-107 | inserting 20 next hangs it as a RED left child of 30 |
| Scenarios.BuildStep5 | RB.cpp:84-107 | inserting 40 next makes 30 RED over the BLACK 20 and 40, as the assigning `flip_colors` does |
| Scenarios.BuildStep6 | RB.cpp:84-107 | inserting 60 next hangs it as a RED left child of 70 |
| Scenarios.BuildStep7 | RB.cpp:84-107 | inserting 80 next flips at 70 and then at the root, leaving a perfect all-BLACK tree of seven nodes |
| Scenarios.BuiltTreeIsRedBlack | RB.cpp:84-107 | the tree built by the seven insertions is a search tree that meets the red-black invariant |
| Scenarios.BuiltWalk | RB.cpp:84-107 | its walk is the seven entries in key order, and `_size` counts them |
| Scenarios.BuildSmall | RB.cpp:84-107 | inserting 0, 1, 2, 3 builds a BLACK 1 over a BLACK 0 and a BLACK 3 with a RED left child 2 |
| Scenarios.ErasePresentCrashes | RB.cpp:53-61 | that tree is a red-black search tree holding 0, and erasing 0 dereferences null, with or without the membership guard |
| Scenarios.EraseBreaksBalance | RB.cpp:47-70 | then `erase(30)` returns a tree that is not black-balanced |
| Scenarios.ErasedWalks | RB.cpp:109-139 | after `erase(30)` the walk is the six expected entries; after `erase(40)` it also lacks (20, 4) |
| Scenarios.EraseLosesEntry | RB.cpp:121-127 | `erase(40)` drops key 20 along with 40 |
| Scenarios.SizeStopsCounting | RB.cpp:109-139 | `_size` counts the entries after `erase(30)` but no longer after `erase(40)` |

## Left out

- LlrbErase.EraseRb: the contract does not claim that the red-black invariant holds afterwards, or that exactly `key` is removed. The code does neither (see the scenarios above). It states only what holds: a subset of the keys, without `key`, in search order.
- Container.Erase: the same weaker statement as EraseRb, for the same reason.
- `isRed` is the predicate `IsRed`. It has no contract of its own.
- Postfix `operator++(int)`/`operator--(int)` (RB.cpp:217-221, 238-242) step the same way and return the old iterator. They are not modelled separately.
- The `ConstIterator` code (RB.cpp:254-310) and the const overloads of `find` and `equalRange` are identical to the non-const ones, so one model serves both.
- `*`, `++` and `--` on the null iterator dereference null (RB.cpp:187, 203, 224). The model requires a non-`End` iterator for them, because every use inside RB.cpp checks against `end()` first.
- `operator*`/`operator->` are the focused entry (`IndexEntry`). Iterator `==`/`!=` compare node pointers; the model compares iterators structurally.
- `end()`/`cend()` are the `End` iterator, and `size()` reads the `size` field.
- Parent links are not stored. The zipper path derives them, so the model assumes every stored parent link points at the actual parent.
- `erase_iterator` relies on that assumption when it reads the successor's parent pointer (RB.cpp:375).
- `output_node_tree`/`output_tree`: console output only.
- Copy and move construction and assignment, the destructor and `delete_subtree`: heap ownership. There is no heap in this model.
- Concrete `Key`/`Value` types and the default colour of `new Node(...)` are declared in a header that is not part of this model.
  - Keys are `int`. Values are a type parameter, compared in `min(key)`/`max(key)` through a caller-supplied `less`.
  - The default colour is the constant `LlrbInsert.NewNodeColor`, set to RED.
- Running the balanced and unbalanced paths on the same tree is not modelled as a combined property. Both work on the same datatype, but nothing is proved about interleaving them.
- A corrected, balance-preserving erase is not included. Its proof is a separate development.

## Findings

| source | as written | input that shows it | evidently intended | confidence | as-written member | corrected member |
|---|---|---|---|---|---|---|
| RB.cpp:84-88 | `insert` increments `_size` even when the key exists and only the value is overwritten | insert (1, v) then (1, w) into an empty map: size 2, one entry | `_size` grows only when a node is added, as `insert_iterator` does | high; not executed | Container.InsertOverwriteMiscounts | Container.InsertCounted |
| RB.cpp:109-139 | `erase` of a key absent from a non-empty tree reaches a null dereference (`move_red_right` at line 65, `move_red_left` at line 55, or `erase_rb(nullptr)` at line 117) | erase 7 from the tree holding only 5 | erasing an absent key leaves the map unchanged; the correction covers only this absent-key case, since erasing a present key can also dereference null (`Scenarios.ErasePresentCrashes`) | high; not executed | Container.EraseAbsentCrashes | Container.EraseChecked |
