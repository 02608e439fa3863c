/** Read-only queries that hand out iterators: `find`, `begin`/`cbegin`/`min()`,
    `max()`, `end`/`cend`, `equalRange`, and the value-selecting `min(key)` /
    `max(key)`. */
module Queries {
  import opened RbTree
  import opened Iterators

  /** `find` below the path `p`: binary search by key comparison. */
  function FindFrom<V>(p: seq<Frame<V>>, t: Tree<V>, key: int): (c: Cursor<V>)
    ensures c.At? ==> Whole(c) == Plug(p, t) && c.key == key && key in Keys(t)
    ensures Ordered(t) && key in Keys(t) ==> c.At?
    decreases t
  {
    if t.Leaf? then End
    else if key < t.key then
      var f := Frame(Left, t.color, t.key, t.value, t.right);
      assert ([f] + p)[1..] == p;
      assert Ordered(t) && key in Keys(t) ==> key in Keys(t.left) by {
        if Ordered(t) && key in Keys(t) {
          assert forall x | x in Keys(t.right) :: t.key < x;
        }
      }
      FindFrom([f] + p, t.left, key)
    else if key > t.key then
      var f := Frame(Right, t.color, t.key, t.value, t.left);
      assert ([f] + p)[1..] == p;
      assert Ordered(t) && key in Keys(t) ==> key in Keys(t.right) by {
        if Ordered(t) && key in Keys(t) {
          assert forall x | x in Keys(t.left) :: x < t.key;
        }
      }
      FindFrom([f] + p, t.right, key)
    else AtNode(p, t)
  }

  /** `find`: an iterator at the entry with `key`, or `End`. */
  function Find<V>(t: Tree<V>, key: int): (c: Cursor<V>)
    ensures c.At? ==> Whole(c) == t && c.key == key
    ensures c.At? ==> Index(c) < |InOrder(t)| && InOrder(t)[Index(c)] == (key, c.value)
    ensures Ordered(t) ==> (c.At? <==> key in Keys(t))
  {
    var c := FindFrom([], t, key);
    if c.At? then IndexEntry(c); c else c
  }

  /** `begin`, `cbegin` and `min()`: the leftmost node, or `End` on an empty tree. */
  function Begin<V>(t: Tree<V>): (c: Cursor<V>)
    ensures c.End? <==> t.Leaf?
    ensures c.At? ==> Whole(c) == t && Index(c) == 0
  {
    if t.Leaf? then End
    else
      DescendIndex(Left, [], t);
      Descend(Left, [], t)
  }

  /** `max()`: the rightmost node, or `End` on an empty tree. */
  function Max<V>(t: Tree<V>): (c: Cursor<V>)
    ensures c.End? <==> t.Leaf?
    ensures c.At? ==> Whole(c) == t && Index(c) == |InOrder(t)| - 1
  {
    if t.Leaf? then End
    else
      DescendIndex(Right, [], t);
      Descend(Right, [], t)
  }

  /** On a search tree `Begin` holds the smallest key and `Max` the largest. */
  lemma BeginMaxKeys<V>(t: Tree<V>)
    requires Ordered(t) && t.Node?
    ensures Begin(t).key in Keys(t) && forall k | k in Keys(t) :: Begin(t).key <= k
    ensures Max(t).key in Keys(t) && forall k | k in Keys(t) :: k <= Max(t).key
  {
    var w := InOrder(t);
    IndexEntry(Begin(t));
    IndexEntry(Max(t));
    OrderedIffSorted(t);
    KeysAreInOrderKeys(t);
    assert w[0] in w && w[|w| - 1] in w;
    forall k | k in Keys(t) ensures w[0].0 <= k <= w[|w| - 1].0 {
      var e :| e in w && e.0 == k;
      var i :| 0 <= i < |w| && w[i] == e;
    }
  }

  /** On a search tree `++` moves to the next larger key, with no key of the
      tree strictly in between, and runs off the end only from the largest. */
  lemma NextKey<V>(c: Cursor<V>)
    requires c.At? && Ordered(Whole(c))
    ensures Next(c).At? ==> c.key < Next(c).key
    ensures Next(c).At? ==> forall k | k in Keys(Whole(c)) :: k <= c.key || Next(c).key <= k
    ensures Next(c).End? ==> forall k | k in Keys(Whole(c)) :: k <= c.key
  {
    var n, w, i := Next(c), InOrder(Whole(c)), Index(c);
    IndexEntry(c);
    assert Sorted(w) by {
      OrderedIffSorted(Whole(c));
    }
    assert Keys(Whole(c)) == SeqKeys(w) by {
      KeysAreInOrderKeys(Whole(c));
    }
    SortedNeighbours(w, i);
    if n.At? {
      IndexEntry(n);
      assert w[i + 1] == (n.key, n.value);
    }
  }

  /** On a search tree `--` moves to the next smaller key, with no key of the
      tree strictly in between, and runs off the front only from the smallest. */
  lemma PrevKey<V>(c: Cursor<V>)
    requires c.At? && Ordered(Whole(c))
    ensures Prev(c).At? ==> Prev(c).key < c.key
    ensures Prev(c).At? ==> forall k | k in Keys(Whole(c)) :: c.key <= k || k <= Prev(c).key
    ensures Prev(c).End? ==> forall k | k in Keys(Whole(c)) :: c.key <= k
  {
    var n, w, i := Prev(c), InOrder(Whole(c)), Index(c);
    IndexEntry(c);
    assert Sorted(w) by {
      OrderedIffSorted(Whole(c));
    }
    assert Keys(Whole(c)) == SeqKeys(w) by {
      KeysAreInOrderKeys(Whole(c));
    }
    SortedNeighbours(w, i);
    if n.At? {
      IndexEntry(n);
      assert w[i - 1] == (n.key, n.value);
    }
  }

  /** Where a range ending at `c` stops in the in-order walk of `t`: `End` is one
      past the last entry. */
  function Stop<V>(t: Tree<V>, c: Cursor<V>): (r: nat)
    requires c.At? ==> Whole(c) == t
    ensures r <= |InOrder(t)|
  {
    if c.End? then |InOrder(t)| else IndexEntry(c); Index(c)
  }

  /** `equalRange`: `(End, End)` when `key` is absent; otherwise `find(key)` and
      the first iterator after it whose key differs, so that the range covers
      exactly the run of entries with `key` that starts at `find(key)`. */
  method EqualRange<V>(t: Tree<V>, key: int) returns (first: Cursor<V>, last: Cursor<V>)
    ensures first == Find(t, key)
    ensures first.End? ==> last.End?
    ensures last.At? ==> Whole(last) == t && last.key != key
    ensures first.At? && last.At? ==> Index(first) < Index(last)
    ensures first.At? ==> forall i | Index(first) <= i < Stop(t, last) :: InOrder(t)[i].0 == key
    ensures Ordered(t) && first.At? ==> last == Next(first)
  {
    first := Find(t, key);
    if first.End? {
      return first, first;
    }
    last := Next(first);
    if Ordered(t) {
      NextKey(first);
    }
    while last.At? && last.key == key
      invariant last.At? ==> Whole(last) == t && Index(first) < Index(last) < |InOrder(t)|
      invariant forall i | Index(first) <= i < Stop(t, last) :: InOrder(t)[i].0 == key
      invariant Ordered(t) ==> last == Next(first) && (last.End? || last.key != key)
      decreases |InOrder(t)| - Stop(t, last)
    {
      IndexEntry(last);
      last := Next(last);
      if last.At? {
        IndexEntry(last);
      }
    }
  }

  /** The scan shared by `min(key)` and `max(key)`: over the run of entries with
      `key` starting at `find(key)`, keep the first iterator whose value no
      later one beats under `better`. */
  method SelectForKey<V>(t: Tree<V>, key: int, better: (V, V) -> bool) returns (r: Cursor<V>)
    ensures r.End? <==> Find(t, key).End?
    ensures r.At? ==> Whole(r) == t && r.key == key && Index(Find(t, key)) <= Index(r)
    ensures Ordered(t) ==> r == Find(t, key)
  {
    var it := Find(t, key);
    if it.End? {
      return End;
    }
    ghost var first := it;
    r := it;
    while it.At? && it.key == key
      invariant it.At? ==> Whole(it) == t && Index(first) <= Index(it) < |InOrder(t)|
      invariant r.At? && Whole(r) == t && r.key == key && Index(first) <= Index(r)
      invariant Ordered(t) ==> r == first
      invariant Ordered(t) ==> it == first || (it == Next(first) && (it.End? || it.key != key))
      decreases |InOrder(t)| - Stop(t, it)
    {
      if better(it.value, r.value) {
        r := it;
      }
      if Ordered(t) {
        NextKey(first);
      }
      IndexEntry(it);
      it := Next(it);
      if it.At? {
        IndexEntry(it);
      }
    }
  }

  /** `min(key)`: among the entries with `key`, the one with the smallest value
      under `less`; on a search tree, with unique keys, that is `find(key)`. */
  method MinForKey<V>(t: Tree<V>, key: int, less: (V, V) -> bool) returns (r: Cursor<V>)
    ensures r.End? <==> Find(t, key).End?
    ensures r.At? ==> Whole(r) == t && r.key == key
    ensures Ordered(t) ==> r == Find(t, key)
  {
    r := SelectForKey(t, key, less);
  }

  /** `max(key)`: as `min(key)` with the comparison reversed. */
  method MaxForKey<V>(t: Tree<V>, key: int, less: (V, V) -> bool) returns (r: Cursor<V>)
    ensures r.End? <==> Find(t, key).End?
    ensures r.At? ==> Whole(r) == t && r.key == key
    ensures Ordered(t) ==> r == Find(t, key)
  {
    r := SelectForKey(t, key, (a, b) => less(b, a));
  }
}
