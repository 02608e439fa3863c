/** The container facade: the root of the balanced tree together with the
    `_size` counter, a `size_t`. */
module Container {
  import opened RbTree
  import opened Maybe
  import opened Entries
  import opened LlrbInsert
  import opened LlrbErase

  const SizeModulus: int := 0x1_0000_0000_0000_0000

  /** `size_t`, taken to be 64 bits wide (its width depends on the platform):
      arithmetic on it wraps around modulo 2^64. */
  type SizeT = n: int | 0 <= n < SizeModulus

  datatype Bst<V> = Bst(root: Tree<V>, size: SizeT)

  function Empty<V>(): Bst<V> {
    Bst(Leaf, 0)
  }

  /** `_size++` */
  function Increment(n: SizeT): (r: SizeT)
    ensures n + 1 < SizeModulus ==> r == n + 1
    ensures n == SizeModulus - 1 ==> r == 0
  {
    (n + 1) % SizeModulus
  }

  /** `_size--` */
  function Decrement(n: SizeT): (r: SizeT)
    ensures n > 0 ==> r == n - 1
    ensures n == 0 ==> r == SizeModulus - 1
  {
    (n - 1) % SizeModulus
  }

  /** `insert`: `insert_rb` from the root, the new root painted BLACK, and
      `_size` incremented on every call, also when the key was already there
      and only its value was overwritten. */
  function Insert<V>(m: Bst<V>, key: int, value: V): (r: Bst<V>)
    ensures r.size == Increment(m.size)
    ensures r.root.Node? && !IsRed(r.root) && Keys(r.root) == Keys(m.root) + {key}
  {
    Bst(Paint(InsertRb(m.root, key, value), Black), Increment(m.size))
  }

  /** `erase`: nothing at all happens on an empty tree; otherwise `erase_rb`
      from the root, a remaining root painted BLACK, and `_size` decremented.
      `None` is a run that dereferences null, which is what every erase of an
      absent key from a non-empty tree does, and what some erasures of present
      keys do too. */
  function Erase<V>(m: Bst<V>, key: int): (r: Option<Bst<V>>)
    ensures m.root.Leaf? ==> r == Some(m)
    ensures m.root.Node? && key !in Keys(m.root) ==> r.None?
    ensures m.root.Node? && r.Some? ==>
      && r.value.size == Decrement(m.size)
      && !IsRed(r.value.root)
      && Keys(r.value.root) <= Keys(m.root)
      && |InOrder(r.value.root)| < |InOrder(m.root)|
  {
    if m.root.Leaf? then Some(m)
    else
      var root :- EraseRb(m.root, key);
      Some(Bst(Paint(root, Black), Decrement(m.size)))
  }

  /** On a search tree the public insertion updates the in-order walk exactly as
      the reference `Upsert`, and a tree meeting the red-black invariants (root
      BLACK, no red right link, no red-red pair, equal black count on every
      path) still meets them afterwards. */
  lemma InsertCorrect<V>(m: Bst<V>, key: int, value: V)
    requires Ordered(m.root)
    ensures Ordered(Insert(m, key, value).root)
    ensures InOrder(Insert(m, key, value).root) == Upsert(InOrder(m.root), key, value)
    ensures RedBlack(m.root) ==> RedBlack(Insert(m, key, value).root)
  {
    var t := InsertRb(m.root, key, value);
    InsertRbContent(m.root, key, value);
    SameInOrderSameOrder(t, Paint(t, Black));
    if RedBlack(m.root) {
      InsertRbBalance(m.root, key, value);
    }
  }

  /** Whenever the public erase returns normally on a search tree, it leaves a
      search tree without `key` whose entries all come from the old tree. */
  lemma EraseCorrect<V>(m: Bst<V>, key: int)
    requires Ordered(m.root) && Erase(m, key).Some?
    ensures Ordered(Erase(m, key).value.root)
    ensures key !in Keys(Erase(m, key).value.root)
    ensures forall e | e in InOrder(Erase(m, key).value.root) :: e in InOrder(m.root)
  {
    if m.root.Node? {
      var t := EraseRb(m.root, key).value;
      EraseRbOrdered(m.root, key);
      SameInOrderSameOrder(t, Paint(t, Black));
      assert InOrder(Paint(t, Black)) == InOrder(t);
    }
  }

  /** `_size` counts the entries of the tree (modulo 2^64). */
  ghost predicate Tracks<V>(m: Bst<V>) {
    m.size == |InOrder(m.root)| % SizeModulus
  }

  lemma IncrementTracks(n: nat, s: SizeT)
    requires s == n % SizeModulus
    ensures Increment(s) == (n + 1) % SizeModulus
  {
  }

  lemma DecrementTracks(n: nat, s: SizeT)
    requires n >= 1 && s == n % SizeModulus
    ensures Decrement(s) == (n - 1) % SizeModulus
  {
  }

  /** Overwriting an existing key through the public insertion still counts one
      more entry: two insertions of key 1 report size 2 for a one-entry tree. */
  lemma InsertOverwriteMiscounts<V>(v: V, w: V)
    ensures Insert(Insert(Empty(), 1, v), 1, w).size == 2
    ensures |InOrder(Insert(Insert(Empty(), 1, v), 1, w).root)| == 1
    ensures Tracks(Insert(Empty<V>(), 1, v)) && !Tracks(Insert(Insert(Empty(), 1, v), 1, w))
  {
    var m1 := Insert(Empty(), 1, v);
    assert m1.root == Node(Black, Leaf, 1, v, Leaf);
    assert Insert(m1, 1, w).root == Node(Black, Leaf, 1, w, Leaf);
  }

  /** The public insertion with `_size` incremented only when a node is added,
      as the iterator-based insertion does. */
  function InsertCounted<V>(m: Bst<V>, key: int, value: V): (r: Bst<V>)
    ensures r.root.Node? && !IsRed(r.root) && Keys(r.root) == Keys(m.root) + {key}
    ensures r.size == if key in Keys(m.root) then m.size else Increment(m.size)
  {
    Bst(Paint(InsertRb(m.root, key, value), Black),
        if key in Keys(m.root) then m.size else Increment(m.size))
  }

  /** On a search tree the corrected insertion keeps `_size` equal to the number
      of entries. */
  lemma InsertCountedTracks<V>(m: Bst<V>, key: int, value: V)
    requires Ordered(m.root) && Tracks(m)
    ensures Tracks(InsertCounted(m, key, value))
  {
    var n := |InOrder(m.root)|;
    var r := InsertCounted(m, key, value);
    assert |InOrder(r.root)| == if key in Keys(m.root) then n else n + 1 by {
      var t := InsertRb(m.root, key, value);
      InsertRbCount(m.root, key, value);
      assert InOrder(Paint(t, Black)) == InOrder(t);
    }
    if key !in Keys(m.root) {
      IncrementTracks(n, m.size);
    }
  }

  /** On a search tree `insert_rb` adds a node exactly when `key` is new. */
  lemma InsertRbCount<V>(h: Tree<V>, key: int, value: V)
    requires Ordered(h)
    ensures |InOrder(InsertRb(h, key, value))| == if key in Keys(h) then |InOrder(h)| else |InOrder(h)| + 1
  {
    InsertRbContent(h, key, value);
    OrderedIffSorted(h);
    KeysAreInOrderKeys(h);
    UpsertLength(InOrder(h), key, value);
  }

  /** Erasing 7 from the one-entry tree holding 5 dereferences null. */
  lemma EraseAbsentCrashes(v: real)
    ensures Erase(Insert(Empty(), 5, v), 7).None?
  {
    assert Insert(Empty(), 5, v).root == Node(Black, Leaf, 5, v, Leaf);
  }

  /** The public erase guarded by a membership test, so that erasing an absent
      key leaves the container as it was. Erasing a present key still runs the
      unguarded erase, null dereferences included. */
  function EraseChecked<V>(m: Bst<V>, key: int): (r: Option<Bst<V>>)
    ensures key !in Keys(m.root) ==> r == Some(m)
    ensures r.Some? && r.value != m ==>
      && key in Keys(m.root)
      && r.value.size == Decrement(m.size)
      && !IsRed(r.value.root)
      && Keys(r.value.root) <= Keys(m.root)
      && |InOrder(r.value.root)| < |InOrder(m.root)|
  {
    if key !in Keys(m.root) then Some(m) else Erase(m, key)
  }

  /** Erasing a missing key is harmless once guarded: erasing 7 from the tree
      holding only 5 leaves it unchanged. */
  lemma EraseCheckedAbsent(v: real)
    ensures EraseChecked(Insert(Empty(), 5, v), 7) == Some(Insert(Empty(), 5, v))
  {
    assert Keys(Insert(Empty(), 5, v).root) == {5};
  }
}
