/** The unbalanced search-tree path: `insert_iterator` and `erase_iterator`
    walk down from the root by key comparisons, never rotate or recolour, and
    rewire at most one link. The walk keeps the path it took as a zipper, so
    that the parent pointer of the source is the first frame of the path. */
module PlainBst {
  import opened RbTree
  import opened Entries
  import opened Iterators
  import opened LlrbInsert
  import opened Container

  /** A node as the node constructor makes it: no children, colour RED. */
  function NewNode<V>(key: int, value: V): (r: Tree<V>)
    ensures r.Node? && IsRed(r) && r.left.Leaf? && r.right.Leaf?
    ensures Keys(r) == {key} && InOrder(r) == [(key, value)]
  {
    Node(NewNodeColor, Leaf, key, value, Leaf)
  }

  /** The frame recorded when stepping from `t` down to its `d` child. */
  function Down<V>(t: Tree<V>, d: Dir): Frame<V>
    requires t.Node?
  {
    Frame(d, t.color, t.key, t.value, Child(t, Flip(d)))
  }

  lemma PlugDown<V>(p: seq<Frame<V>>, t: Tree<V>, d: Dir)
    requires t.Node?
    ensures Plug([Down(t, d)] + p, Child(t, d)) == Plug(p, t)
  {
    assert ([Down(t, d)] + p)[0] == Down(t, d);
    assert ([Down(t, d)] + p)[1..] == p;
  }

  /** A search for `key` that reached the bottom of `p` went past every entry
      in front of it and stopped short of every entry behind it. */
  ghost predicate Brackets<V>(p: seq<Frame<V>>, key: int) {
    AllBelow(Before(p), key) && AllAbove(After(p), key)
  }

  /** Stepping the way the comparison with `key` says keeps the bracket. */
  lemma BracketsDown<V>(p: seq<Frame<V>>, t: Tree<V>, d: Dir, key: int)
    requires t.Node? && Ordered(t) && Brackets(p, key)
    requires if d == Left then key < t.key else t.key < key
    ensures Brackets([Down(t, d)] + p, key)
  {
    var q := [Down(t, d)] + p;
    assert q[0] == Down(t, d) && q[1..] == p;
    OrderedSplit(t);
    if d == Left {
      var e, r := [(t.key, t.value)], InOrder(t.right);
      assert After(q) == e + r + After(p);
      assert AllAbove(e + r, key) by {
        AboveJoin(e, r, key);
      }
      AboveJoin(e + r, After(p), key);
    } else {
      var l, e := InOrder(t.left), [(t.key, t.value)];
      assert Before(q) == Before(p) + l + e;
      assert AllBelow(Before(p) + l, key) by {
        BelowJoin(Before(p), l, key);
      }
      BelowJoin(Before(p) + l, e, key);
    }
  }

  lemma AboveJoin<V>(a: seq<(int, V)>, b: seq<(int, V)>, key: int)
    requires AllAbove(a, key) && AllAbove(b, key)
    ensures AllAbove(a + b, key)
  {
    forall i | 0 <= i < |a + b| ensures key < (a + b)[i].0 {
      if i >= |a| { assert (a + b)[i] == b[i - |a|]; }
    }
  }

  lemma BelowJoin<V>(a: seq<(int, V)>, b: seq<(int, V)>, key: int)
    requires AllBelow(a, key) && AllBelow(b, key)
    ensures AllBelow(a + b, key)
  {
    forall i | 0 <= i < |a + b| ensures (a + b)[i].0 < key {
      if i >= |a| { assert (a + b)[i] == b[i - |a|]; }
    }
  }

  /** The keys of a plugged tree: those of the path and those of the subtree. */
  lemma PlugKeys<V>(p: seq<Frame<V>>, t: Tree<V>)
    ensures Keys(Plug(p, t)) == SeqKeys(Before(p)) + Keys(t) + SeqKeys(After(p))
  {
    PlugInOrder(p, t);
    KeysAreInOrderKeys(Plug(p, t));
    KeysAreInOrderKeys(t);
    SeqKeysConcat(Before(p) + InOrder(t), After(p));
    SeqKeysConcat(Before(p), InOrder(t));
  }

  /** A sequence bracketed around `key` upserts only in its middle part. */
  lemma UpsertInside<V>(b: seq<(int, V)>, x: seq<(int, V)>, a: seq<(int, V)>, key: int, value: V)
    requires AllBelow(b, key) && AllAbove(a, key)
    ensures Upsert(b + x + a, key, value) == b + Upsert(x, key, value) + a
  {
    assert b + x + a == b + (x + a);
    UpsertAfter(b, x + a, key, value);
    UpsertBefore(x, a, key, value);
  }

  /** A sequence bracketed around `key` loses entries only in its middle part. */
  lemma RemoveInside<V>(b: seq<(int, V)>, x: seq<(int, V)>, a: seq<(int, V)>, key: int)
    requires AllBelow(b, key) && AllAbove(a, key)
    ensures Remove(b + x + a, key) == b + Remove(x, key) + a
  {
    RemoveConcat(b + x, a, key);
    RemoveConcat(b, x, key);
    RemoveAbsent(b, key);
    RemoveAbsent(a, key);
  }

  /** Replacing the subtree `t` at the bottom of a search path by `u`, where `u`
      holds `t`'s entries with `key` upserted, upserts `key` in the whole tree. */
  lemma InsertAt<V>(p: seq<Frame<V>>, t: Tree<V>, u: Tree<V>, key: int, value: V)
    requires Ordered(Plug(p, t)) && Ordered(t) && Brackets(p, key)
    requires InOrder(u) == Upsert(InOrder(t), key, value)
    ensures InOrder(Plug(p, u)) == Upsert(InOrder(Plug(p, t)), key, value)
    ensures Ordered(Plug(p, u))
    ensures |InOrder(Plug(p, u))| == |InOrder(Plug(p, t))| <==> key in Keys(Plug(p, t))
  {
    PlugInOrder(p, t);
    PlugInOrder(p, u);
    UpsertInside(Before(p), InOrder(t), After(p), key, value);
    OrderedIffSorted(Plug(p, t));
    OrderedIffSorted(Plug(p, u));
    UpsertSorted(InOrder(Plug(p, t)), key, value);
    UpsertLength(InOrder(Plug(p, t)), key, value);
    KeysAreInOrderKeys(Plug(p, t));
  }

  /** The same for a removal of `key`. */
  lemma EraseAt<V>(p: seq<Frame<V>>, t: Tree<V>, u: Tree<V>, key: int)
    requires Ordered(Plug(p, t)) && Brackets(p, key)
    requires InOrder(u) == Remove(InOrder(t), key)
    ensures InOrder(Plug(p, u)) == Remove(InOrder(Plug(p, t)), key)
    ensures Ordered(Plug(p, u))
  {
    PlugInOrder(p, t);
    PlugInOrder(p, u);
    RemoveInside(Before(p), InOrder(t), After(p), key);
    OrderedIffSorted(Plug(p, t));
    OrderedIffSorted(Plug(p, u));
    RemoveSorted(InOrder(Plug(p, t)), key);
  }

  /** A search that fell off the tree on a search tree proves `key` absent. */
  lemma NotFound<V>(p: seq<Frame<V>>, key: int)
    requires Brackets(p, key)
    ensures key !in Keys(Plug(p, Leaf))
  {
    PlugKeys(p, Leaf);
    forall e | e in Before(p) ensures e.0 != key {
      var i :| 0 <= i < |Before(p)| && Before(p)[i] == e;
    }
    forall e | e in After(p) ensures e.0 != key {
      var i :| 0 <= i < |After(p)| && After(p)[i] == e;
    }
  }

  /** The three ways the iterative insertion ends, on the subtree it stopped at:
      a new left leaf, a new right leaf, or the value overwritten. */
  lemma GrowLeft<V>(t: Tree<V>, key: int, value: V)
    requires t.Node? && t.left.Leaf? && key < t.key
    ensures Keys(t.(left := NewNode(key, value))) == Keys(t) + {key}
    ensures |InOrder(t.(left := NewNode(key, value)))| == |InOrder(t)| + 1
    ensures InOrder(t.(left := NewNode(key, value))) == Upsert(InOrder(t), key, value)
  {
    var s := InOrder(t);
    var n := NewNode(key, value);
    assert InOrder<V>(Leaf) == [];
    assert s == [(t.key, t.value)] + InOrder(t.right);
    assert Upsert(s, key, value) == [(key, value)] + s;
    assert InOrder(n) == [(key, value)];
    assert InOrder(t.(left := n)) == [(key, value)] + s;
    assert Keys(n) == {key};
  }

  lemma GrowRight<V>(t: Tree<V>, key: int, value: V)
    requires t.Node? && t.right.Leaf? && t.key < key
    ensures Keys(t.(right := NewNode(key, value))) == Keys(t) + {key}
    ensures |InOrder(t.(right := NewNode(key, value)))| == |InOrder(t)| + 1
    ensures Ordered(t) ==> InOrder(t.(right := NewNode(key, value))) == Upsert(InOrder(t), key, value)
  {
    if Ordered(t) {
      OrderedSplit(t);
      var a := InOrder(t.left) + [(t.key, t.value)];
      assert InOrder(t) == a + [];
      assert AllBelow(a, key) by {
        forall i | 0 <= i < |a| ensures a[i].0 < key {
          if i < |InOrder(t.left)| {
            assert a[i] == InOrder(t.left)[i];
          }
        }
      }
      UpsertAfter(a, [], key, value);
    }
  }

  lemma Overwrite<V>(t: Tree<V>, value: V)
    requires t.Node?
    ensures Keys(t.(value := value)) == Keys(t)
    ensures |InOrder(t.(value := value))| == |InOrder(t)|
    ensures Ordered(t) ==> InOrder(t.(value := value)) == Upsert(InOrder(t), t.key, value)
  {
    if Ordered(t) {
      OrderedSplit(t);
      UpsertAtHead(InOrder(t.left), (t.key, t.value), InOrder(t.right), value);
    }
  }

  /** Where the iterative insertion stops: at the node with `key`, or at a node
      whose child on `key`'s side is missing. */
  ghost predicate Stopped<V>(t: Tree<V>, key: int) {
    && t.Node?
    && (key == t.key || (key < t.key && t.left.Leaf?) || (t.key < key && t.right.Leaf?))
  }

  /** The search loop of `insert_iterator`, from a non-empty root. */
  method InsertSearch<V>(root: Tree<V>, key: int) returns (p: seq<Frame<V>>, t: Tree<V>)
    requires root.Node?
    ensures Stopped(t, key) && Plug(p, t) == root
    ensures Ordered(root) ==> Ordered(t) && Brackets(p, key)
  {
    p, t := [], root;
    while !(key == t.key || (key < t.key && t.left.Leaf?) || (t.key < key && t.right.Leaf?))
      invariant t.Node? && Plug(p, t) == root
      invariant Ordered(root) ==> Ordered(t) && Brackets(p, key)
      decreases |InOrder(t)|
    {
      var d := if key < t.key then Left else Right;
      if Ordered(root) {
        BracketsDown(p, t, d, key);
      }
      PlugDown(p, t, d);
      p, t := [Down(t, d)] + p, Child(t, d);
    }
  }

  /** The subtree where the insertion stopped, after it: a new node hung on the
      missing side, or the value overwritten. */
  function Hang<V>(t: Tree<V>, key: int, value: V): (r: Tree<V>)
    requires Stopped(t, key)
    ensures r.Node? && Keys(r) == Keys(t) + {key}
    ensures |InOrder(r)| == |InOrder(t)| + if key == t.key then 0 else 1
    ensures Ordered(t) ==> InOrder(r) == Upsert(InOrder(t), key, value)
  {
    if key < t.key then
      GrowLeft(t, key, value);
      t.(left := NewNode(key, value))
    else if t.key < key then
      GrowRight(t, key, value);
      t.(right := NewNode(key, value))
    else
      Overwrite(t, value);
      t.(value := value)
  }

  lemma HangAt<V>(root: Tree<V>, p: seq<Frame<V>>, t: Tree<V>, key: int, value: V)
    requires Stopped(t, key) && Plug(p, t) == root
    requires Ordered(root) ==> Ordered(t) && Brackets(p, key)
    ensures Keys(Plug(p, Hang(t, key, value))) == Keys(root) + {key}
    ensures |InOrder(Plug(p, Hang(t, key, value)))| ==
      |InOrder(root)| + if key == t.key then 0 else 1
    ensures Ordered(root) ==>
      && Ordered(Plug(p, Hang(t, key, value)))
      && InOrder(Plug(p, Hang(t, key, value))) == Upsert(InOrder(root), key, value)
      && (key == t.key <==> key in Keys(root))
  {
    var u := Hang(t, key, value);
    if key < t.key {
      GrowLeft(t, key, value);
    } else if t.key < key {
      GrowRight(t, key, value);
    } else {
      Overwrite(t, value);
    }
    PlugKeys(p, t);
    PlugKeys(p, u);
    PlugInOrder(p, t);
    PlugInOrder(p, u);
    if Ordered(root) {
      InsertAt(p, t, u, key, value);
    }
  }

  /** `insert_iterator`: an empty container gets a single new node and size 1;
      otherwise the search overwrites the value of a node with `key`, or hangs
      a new node below the last node it visited and increments `_size`. */
  method InsertIterator<V>(m: Bst<V>, key: int, value: V) returns (r: Bst<V>)
    ensures m.root.Leaf? ==> r == Bst(NewNode(key, value), 1)
    ensures r.root.Node? && Keys(r.root) == Keys(m.root) + {key}
    ensures m.root.Node? && Tracks(m) ==> Tracks(r)
    ensures Ordered(m.root) ==> Ordered(r.root) && InOrder(r.root) == Upsert(InOrder(m.root), key, value)
    ensures m.root.Node? && Ordered(m.root) ==>
      r.size == if key in Keys(m.root) then m.size else Increment(m.size)
  {
    if m.root.Leaf? {
      assert Keys(NewNode(key, value)) == {key};
      assert InOrder(NewNode(key, value)) == [(key, value)];
      return Bst(NewNode(key, value), 1);
    }
    var p, t := InsertSearch(m.root, key);
    HangAt(m.root, p, t, key, value);
    if key == t.key {
      r := Bst(Plug(p, Hang(t, key, value)), m.size);
    } else {
      r := Bst(Plug(p, Hang(t, key, value)), Increment(m.size));
      if Tracks(m) {
        IncrementTracks(|InOrder(m.root)|, m.size);
      }
    }
  }

  /** The in-order successor of the head of `t`: the leftmost node of its right
      subtree, returned with the path down to it. */
  method Successor<V>(t: Tree<V>) returns (q: seq<Frame<V>>, s: Tree<V>)
    requires t.Node? && t.right.Node?
    ensures s.Node? && s.left.Leaf? && Plug(q, s) == t.right && Before(q) == []
  {
    q, s := [], t.right;
    while s.left.Node?
      invariant s.Node? && Plug(q, s) == t.right && Before(q) == []
      decreases |InOrder(s)|
    {
      PlugDown(q, s, Left);
      assert ([Down(s, Left)] + q)[1..] == q;
      q, s := [Down(s, Left)] + q, s.left;
    }
  }

  /** Removing the successor splices its right child into its place, and moving
      its entry into the head leaves the walk without the head's entry. */
  lemma SpliceSuccessor<V>(t: Tree<V>, q: seq<Frame<V>>, s: Tree<V>)
    requires t.Node? && s.Node? && s.left.Leaf? && Plug(q, s) == t.right && Before(q) == []
    ensures InOrder(Node(t.color, t.left, s.key, s.value, Plug(q, s.right))) ==
      InOrder(t.left) + InOrder(t.right)
  {
    var e, r, a := [(s.key, s.value)], InOrder(s.right), After(q);
    var x, y := InOrder(Plug(q, s)), InOrder(Plug(q, s.right));
    assert x == e + r + a by {
      PlugInOrder(q, s);
      assert InOrder(s) == e + r;
    }
    assert y == r + a by {
      PlugInOrder(q, s.right);
    }
    Regroup(InOrder(t.left), e, r, a);
  }

  lemma Regroup<T>(l: seq<T>, e: seq<T>, r: seq<T>, a: seq<T>)
    ensures l + e + (r + a) == l + (e + r + a)
  {
  }

  /** A replacement walking the head's two subtrees in turn is the head's
      subtree with the head's entry removed. */
  lemma Unlinked<V>(t: Tree<V>, u: Tree<V>)
    requires t.Node? && InOrder(u) == InOrder(t.left) + InOrder(t.right)
    ensures Keys(u) <= Keys(t)
    ensures |InOrder(u)| + 1 == |InOrder(t)|
    ensures Ordered(t) ==> InOrder(u) == Remove(InOrder(t), t.key)
  {
    assert Keys(u) == Keys(t.left) + Keys(t.right) by {
      KeysAreInOrderKeys(u);
      KeysAreInOrderKeys(t.left);
      KeysAreInOrderKeys(t.right);
      SeqKeysConcat(InOrder(t.left), InOrder(t.right));
    }
    if Ordered(t) {
      var w, i := InOrder(t), |InOrder(t.left)|;
      assert Sorted(w) by {
        OrderedIffSorted(t);
      }
      assert w[..i] == InOrder(t.left) && w[i] == (t.key, t.value) && w[i + 1..] == InOrder(t.right);
      assert Remove(w, t.key) == w[..i] + w[i + 1..] by {
        RemovePresent(w, i, t.key);
      }
    }
  }

  /** The search loop of `erase_iterator`: it stops at the node with `key` or
      falls off the tree. */
  method EraseSearch<V>(root: Tree<V>, key: int) returns (p: seq<Frame<V>>, t: Tree<V>)
    ensures Plug(p, t) == root && (t.Node? ==> t.key == key)
    ensures Ordered(root) ==> Ordered(t) && Brackets(p, key)
  {
    p, t := [], root;
    while t.Node? && t.key != key
      invariant Plug(p, t) == root
      invariant Ordered(root) ==> Ordered(t) && Brackets(p, key)
      decreases |InOrder(t)|
    {
      var d := if key < t.key then Left else Right;
      if Ordered(root) {
        BracketsDown(p, t, d, key);
      }
      PlugDown(p, t, d);
      p, t := [Down(t, d)] + p, Child(t, d);
    }
  }

  /** What takes the found node's place: with two children, the node carrying
      its successor's entry above the right subtree without the successor;
      otherwise its only child, or nothing. */
  method Unlink<V>(t: Tree<V>) returns (u: Tree<V>)
    requires t.Node?
    ensures InOrder(u) == InOrder(t.left) + InOrder(t.right)
  {
    if t.left.Node? && t.right.Node? {
      var q, s := Successor(t);
      u := Node(t.color, t.left, s.key, s.value, Plug(q, s.right));
      SpliceSuccessor(t, q, s);
    } else {
      u := if t.left.Node? then t.left else t.right;
    }
  }

  /** `erase_iterator`: nothing happens when the search does not find `key`;
      otherwise `_size` is decremented, a node with two children takes its
      successor's entry and the successor is unlinked instead, and the node
      being unlinked is replaced by its only child (or by nothing). */
  method EraseIterator<V>(m: Bst<V>, key: int) returns (r: Bst<V>)
    ensures r == m || (key in Keys(m.root) && r.size == Decrement(m.size))
    ensures r != m ==> |InOrder(r.root)| + 1 == |InOrder(m.root)|
    ensures Keys(r.root) <= Keys(m.root)
    ensures Tracks(m) ==> Tracks(r)
    ensures Ordered(m.root) ==> (r == m <==> key !in Keys(m.root))
    ensures Ordered(m.root) ==> Ordered(r.root) && InOrder(r.root) == Remove(InOrder(m.root), key)
  {
    var p, t := EraseSearch(m.root, key);
    if t.Leaf? {
      if Ordered(m.root) {
        NotFound(p, key);
        RemoveAbsent(InOrder(m.root), key) by {
          forall i | 0 <= i < |InOrder(m.root)| ensures InOrder(m.root)[i].0 != key {
            EntryKeyIn(m.root, InOrder(m.root)[i]);
          }
        }
      }
      return m;
    }
    var u := Unlink(t);
    Unlinked(t, u);
    r := Bst(Plug(p, u), Decrement(m.size));
    assert |InOrder(r.root)| + 1 == |InOrder(m.root)| by {
      PlugInOrder(p, t);
      PlugInOrder(p, u);
    }
    assert key in Keys(m.root) && Keys(r.root) <= Keys(m.root) by {
      PlugKeys(p, t);
      PlugKeys(p, u);
    }
    if Ordered(m.root) {
      EraseAt(p, t, u, key);
    }
    if Tracks(m) {
      DecrementTracks(|InOrder(m.root)|, m.size);
    }
  }
}
