/** The node shape shared by every operation of the ordered map, and the
    invariants the balanced operations are meant to keep. Keys are integers
    (any totally ordered key would do); values are opaque. A missing child is
    `Leaf`. Parent back-links are not stored: the iterators in `Iterators`
    carry their path to the root instead. */
module RbTree {

  datatype Color = Red | Black

  datatype Tree<V> =
    | Leaf
    | Node(color: Color, left: Tree<V>, key: int, value: V, right: Tree<V>)

  /** `isRed`: an absent node counts as black. */
  predicate IsRed<V>(t: Tree<V>) {
    t.Node? && t.color == Red
  }

  /** The root recoloured, as `_root->color = BLACK` does; an empty tree is left alone. */
  function Paint<V>(t: Tree<V>, c: Color): (r: Tree<V>)
    ensures r.Leaf? <==> t.Leaf?
    ensures r.Node? ==> r.color == c && r.left == t.left && r.right == t.right
    ensures r.Node? ==> r.key == t.key && r.value == t.value
  {
    if t.Leaf? then t else t.(color := c)
  }

  /** The (key, value) pairs in in-order, i.e. the order a full iteration visits them. */
  function InOrder<V>(t: Tree<V>): seq<(int, V)> {
    match t
    case Leaf => []
    case Node(_, l, k, v, r) => InOrder(l) + [(k, v)] + InOrder(r)
  }

  function Keys<V>(t: Tree<V>): set<int> {
    match t
    case Leaf => {}
    case Node(_, l, k, _, r) => Keys(l) + {k} + Keys(r)
  }

  /** The search-tree property: every key in a left subtree is smaller, every key
      in a right subtree larger than the key above it (so keys are unique). */
  ghost predicate Ordered<V>(t: Tree<V>) {
    match t
    case Leaf => true
    case Node(_, l, k, _, r) =>
      && Ordered(l) && Ordered(r)
      && (forall x | x in Keys(l) :: x < k)
      && (forall x | x in Keys(r) :: k < x)
  }

  /** Strictly ascending keys: the sequence-level counterpart of `Ordered`. */
  ghost predicate Sorted<V>(s: seq<(int, V)>) {
    forall i, j | 0 <= i < j < |s| :: s[i].0 < s[j].0
  }

  ghost function SeqKeys<V>(s: seq<(int, V)>): set<int> {
    set e | e in s :: e.0
  }

  /** Number of black nodes on the leftmost path; a `Leaf` counts zero. */
  function BlackHeight<V>(t: Tree<V>): nat {
    match t
    case Leaf => 0
    case Node(c, l, _, _, _) => BlackHeight(l) + (if c == Black then 1 else 0)
  }

  /** Every path from this node down to a missing child meets the same number of black nodes. */
  ghost predicate BlackBalanced<V>(t: Tree<V>) {
    match t
    case Leaf => true
    case Node(_, l, _, _, r) =>
      BlackBalanced(l) && BlackBalanced(r) && BlackHeight(l) == BlackHeight(r)
  }

  /** No red right link anywhere, and no red node with a red left child. */
  ghost predicate LeftLeaning<V>(t: Tree<V>) {
    match t
    case Leaf => true
    case Node(c, l, _, _, r) =>
      && !IsRed(r)
      && !(c == Red && IsRed(l))
      && LeftLeaning(l) && LeftLeaning(r)
  }

  /** The invariant a completed public operation of the balanced map should leave behind. */
  ghost predicate RedBlack<V>(t: Tree<V>) {
    LeftLeaning(t) && BlackBalanced(t) && !IsRed(t)
  }

  lemma {:induction false} SeqKeysConcat<V>(a: seq<(int, V)>, b: seq<(int, V)>)
    ensures SeqKeys(a + b) == SeqKeys(a) + SeqKeys(b)
  {
    forall x | x in SeqKeys(a + b) ensures x in SeqKeys(a) + SeqKeys(b) {
      var e :| e in a + b && e.0 == x;
      assert e in a || e in b;
    }
    forall x | x in SeqKeys(a) + SeqKeys(b) ensures x in SeqKeys(a + b) {
      if x in SeqKeys(a) {
        var e :| e in a && e.0 == x;
        assert e in a + b;
      } else {
        var e :| e in b && e.0 == x;
        assert e in a + b;
      }
    }
  }

  /** The key set is exactly the set of keys the in-order walk visits. */
  lemma {:induction false} KeysAreInOrderKeys<V>(t: Tree<V>)
    ensures Keys(t) == SeqKeys(InOrder(t))
  {
    match t
    case Leaf =>
    case Node(_, l, k, v, r) =>
      KeysAreInOrderKeys(l);
      KeysAreInOrderKeys(r);
      SeqKeysConcat(InOrder(l) + [(k, v)], InOrder(r));
      SeqKeysConcat(InOrder(l), [(k, v)]);
      assert SeqKeys([(k, v)]) == {k};
  }

  lemma EntryKeyIn<V>(t: Tree<V>, e: (int, V))
    requires e in InOrder(t)
    ensures e.0 in Keys(t)
  {
    KeysAreInOrderKeys(t);
  }

  /** Splitting a concatenation around one entry: sorted iff both halves are
      sorted and the entry separates them. */
  lemma SortedAround<V>(a: seq<(int, V)>, e: (int, V), b: seq<(int, V)>)
    ensures Sorted(a + [e] + b) <==>
      && Sorted(a) && Sorted(b)
      && (forall x | x in SeqKeys(a) :: x < e.0)
      && (forall x | x in SeqKeys(b) :: e.0 < x)
  {
    if Sorted(a + [e] + b) {
      SortedAroundParts(a, e, b);
    }
    if && Sorted(a) && Sorted(b)
       && (forall x | x in SeqKeys(a) :: x < e.0)
       && (forall x | x in SeqKeys(b) :: e.0 < x)
    {
      SortedAroundJoin(a, e, b);
    }
  }

  lemma SortedAroundParts<V>(a: seq<(int, V)>, e: (int, V), b: seq<(int, V)>)
    requires Sorted(a + [e] + b)
    ensures Sorted(a) && Sorted(b)
    ensures forall x | x in SeqKeys(a) :: x < e.0
    ensures forall x | x in SeqKeys(b) :: e.0 < x
  {
    var s := a + [e] + b;
    assert forall i | 0 <= i < |a| :: s[i] == a[i];
    assert s[|a|] == e;
    assert forall i | 0 <= i < |b| :: s[|a| + 1 + i] == b[i];
    forall x | x in SeqKeys(a) ensures x < e.0 {
      var f :| f in a && f.0 == x;
      var i :| 0 <= i < |a| && a[i] == f;
    }
    forall x | x in SeqKeys(b) ensures e.0 < x {
      var f :| f in b && f.0 == x;
      var i :| 0 <= i < |b| && b[i] == f;
      assert s[|a| + 1 + i] == f;
    }
  }

  lemma SortedAroundJoin<V>(a: seq<(int, V)>, e: (int, V), b: seq<(int, V)>)
    requires Sorted(a) && Sorted(b)
    requires forall x | x in SeqKeys(a) :: x < e.0
    requires forall x | x in SeqKeys(b) :: e.0 < x
    ensures Sorted(a + [e] + b)
  {
    var s := a + [e] + b;
    forall i, j | 0 <= i < j < |s| ensures s[i].0 < s[j].0 {
      if i < |a| {
        assert s[i] == a[i] && a[i] in a && a[i].0 in SeqKeys(a);
        if j < |a| {
          assert s[j] == a[j];
        } else if j == |a| {
          assert s[j] == e;
        } else {
          assert s[j] == b[j - |a| - 1] && b[j - |a| - 1] in b && b[j - |a| - 1].0 in SeqKeys(b);
        }
      } else if i == |a| {
        assert s[i] == e;
        assert s[j] == b[j - |a| - 1] && b[j - |a| - 1] in b && b[j - |a| - 1].0 in SeqKeys(b);
      } else {
        assert s[i] == b[i - |a| - 1] && s[j] == b[j - |a| - 1];
      }
    }
  }

  /** `Ordered` and `Sorted` agree: a tree is a search tree exactly when its
      in-order walk has strictly ascending keys. */
  lemma {:induction false} OrderedIffSorted<V>(t: Tree<V>)
    ensures Ordered(t) <==> Sorted(InOrder(t))
  {
    match t
    case Leaf =>
    case Node(_, l, k, v, r) =>
      OrderedIffSorted(l);
      OrderedIffSorted(r);
      KeysAreInOrderKeys(l);
      KeysAreInOrderKeys(r);
      SortedAround(InOrder(l), (k, v), InOrder(r));
  }

  /** Two trees with the same in-order walk are both search trees or neither is. */
  lemma SameInOrderSameOrder<V>(a: Tree<V>, b: Tree<V>)
    requires InOrder(a) == InOrder(b)
    ensures Ordered(a) <==> Ordered(b)
    ensures Keys(a) == Keys(b)
  {
    OrderedIffSorted(a);
    OrderedIffSorted(b);
    KeysAreInOrderKeys(a);
    KeysAreInOrderKeys(b);
  }

  /** In a sorted walk no key lies strictly between two neighbours. */
  lemma SortedNeighbours<V>(w: seq<(int, V)>, i: nat)
    requires Sorted(w) && i < |w|
    ensures forall k | k in SeqKeys(w) :: k <= w[i].0 || (i + 1 < |w| && w[i + 1].0 <= k)
    ensures forall k | k in SeqKeys(w) :: w[i].0 <= k || (0 < i && k <= w[i - 1].0)
  {
    forall k | k in SeqKeys(w)
      ensures k <= w[i].0 || (i + 1 < |w| && w[i + 1].0 <= k)
      ensures w[i].0 <= k || (0 < i && k <= w[i - 1].0)
    {
      var e :| e in w && e.0 == k;
      var j :| 0 <= j < |w| && w[j] == e;
    }
  }
}
