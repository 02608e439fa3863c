/** Recursive left-leaning red-black insertion (`insert_rb`). */
module LlrbInsert {
  import opened RbTree
  import opened Entries
  import opened Balance

  /** Colour of a node made by `new Node(key, value, parent)`. The default
      argument lives in a header that is not part of this model; the balance
      proof below needs it to be RED. */
  const NewNodeColor: Color := Red

  /** `insert_rb`: descend by key, make a new leaf at the empty slot or overwrite
      the value on an equal key, then rebalance on the way up. */
  function InsertRb<V>(h: Tree<V>, key: int, value: V): (r: Tree<V>)
    ensures r.Node?
    ensures Keys(r) == Keys(h) + {key}
    ensures Ordered(h) ==> Ordered(r)
  {
    if h.Leaf? then Node(NewNodeColor, Leaf, key, value, Leaf)
    else if key < h.key then InsertFix(h.(left := InsertRb(h.left, key, value)))
    else if key > h.key then InsertFix(h.(right := InsertRb(h.right, key, value)))
    else InsertFix(h.(value := value))
  }

  /** The three rebalancing lines that end `insert_rb`: (a) rotate left when
      only the right child is red, (b) rotate right on a red-red left pair,
      (c) flip when both children are red. */
  function InsertFix<V>(h: Tree<V>): (r: Tree<V>)
    requires h.Node?
    ensures r.Node? && InOrder(r) == InOrder(h) && Keys(r) == Keys(h)
    ensures Ordered(h) ==> Ordered(r)
  {
    var h1 := if IsRed(h.right) && !IsRed(h.left) then RotateLeft(h) else h;
    var h2 := if IsRed(h1.left) && IsRed(h1.left.left) then RotateRight(h1) else h1;
    if IsRed(h2.left) && IsRed(h2.right) then FlipColors(h2) else h2
  }

  /** The three rebalancing steps of `InsertRb` leave the in-order walk alone. */
  lemma InsertRbInOrderShape<V>(h: Tree<V>, key: int, value: V)
    requires h.Node?
    ensures InOrder(InsertRb(h, key, value)) ==
      if key < h.key then InOrder(InsertRb(h.left, key, value)) + [(h.key, h.value)] + InOrder(h.right)
      else if key > h.key then InOrder(h.left) + [(h.key, h.value)] + InOrder(InsertRb(h.right, key, value))
      else InOrder(h.left) + [(key, value)] + InOrder(h.right)
  {
  }

  /** On a search tree, insertion does to the in-order walk exactly what the
      reference `Upsert` does to a sorted sequence: overwrite in place when the
      key is present, otherwise add the one new entry at its sorted position. */
  lemma {:induction false} InsertRbContent<V>(h: Tree<V>, key: int, value: V)
    requires Ordered(h)
    ensures InOrder(InsertRb(h, key, value)) == Upsert(InOrder(h), key, value)
  {
    if h.Node? {
      InsertRbInOrderShape(h, key, value);
      OrderedSplit(h);
      if key < h.key {
        InsertRbContent(h.left, key, value);
        UpsertIntoLeft(InOrder(h.left), (h.key, h.value), InOrder(h.right), key, value);
      } else if key > h.key {
        InsertRbContent(h.right, key, value);
        UpsertIntoRight(InOrder(h.left), (h.key, h.value), InOrder(h.right), key, value);
      } else {
        UpsertAtHead(InOrder(h.left), (h.key, h.value), InOrder(h.right), value);
      }
    }
  }

  lemma UpsertIntoLeft<V>(a: seq<(int, V)>, e: (int, V), b: seq<(int, V)>, key: int, value: V)
    requires key < e.0 && AllAbove(b, e.0)
    ensures Upsert(a + [e] + b, key, value) == Upsert(a, key, value) + [e] + b
  {
    assert AllAbove([e] + b, key);
    UpsertBefore(a, [e] + b, key, value);
    assert a + [e] + b == a + ([e] + b);
  }

  lemma UpsertIntoRight<V>(a: seq<(int, V)>, e: (int, V), b: seq<(int, V)>, key: int, value: V)
    requires e.0 < key && AllBelow(a, e.0)
    ensures Upsert(a + [e] + b, key, value) == a + [e] + Upsert(b, key, value)
  {
    assert AllBelow(a + [e], key);
    UpsertAfter(a + [e], b, key, value);
  }

  lemma UpsertAtHead<V>(a: seq<(int, V)>, e: (int, V), b: seq<(int, V)>, value: V)
    requires AllBelow(a, e.0)
    ensures Upsert(a + [e] + b, e.0, value) == a + [(e.0, value)] + b
  {
    UpsertAfter(a, [e] + b, e.0, value);
    assert ([e] + b)[1..] == b;
    assert a + [e] + b == a + ([e] + b);
  }

  /** Left-leaning below the head: what `InsertRb` returns for a red head, whose
      left child may itself be red for the moment. */
  ghost predicate NearlyLeftLeaning<V>(t: Tree<V>) {
    t.Node? && !IsRed(t.right) && LeftLeaning(t.left) && LeftLeaning(t.right)
  }

  /** One rebalancing step restores the invariants one level up. Its input is a
      head whose children are balanced and left-leaning, except that under a
      black head the left child may carry a red-red pair (then the right child
      is not red), and a red head never has two red children. */
  lemma InsertFixBalance<V>(h: Tree<V>)
    requires h.Node? && BlackBalanced(h.left) && BlackBalanced(h.right)
    requires BlackHeight(h.left) == BlackHeight(h.right)
    requires LeftLeaning(h.right)
    requires LeftLeaning(h.left) || (h.color == Black && NearlyLeftLeaning(h.left) && !IsRed(h.right))
    requires h.color == Red ==> !(IsRed(h.left) && IsRed(h.right))
    ensures BlackBalanced(InsertFix(h)) && BlackHeight(InsertFix(h)) == BlackHeight(h)
    ensures NearlyLeftLeaning(InsertFix(h))
    ensures h.color == Black ==> LeftLeaning(InsertFix(h))
    ensures h.color == Red ==> IsRed(InsertFix(h))
  {
    if !LeftLeaning(h.left) {
      var l := h.left;
      assert IsRed(l) && IsRed(l.left);
      var h2 := RotateRight(h);
      assert h2 == Node(Black, l.left, l.key, l.value, Node(Red, l.right, h.key, h.value, h.right));
      assert InsertFix(h) == FlipColors(h2);
    }
  }

  /** With new leaves RED, `InsertRb` keeps every path's black count, keeps the
      tree left-leaning below a black head, and returns a red head for a red
      one (whose red-red pair, if any, the caller's rebalancing removes). */
  lemma {:induction false} InsertRbBalance<V>(h: Tree<V>, key: int, value: V)
    requires LeftLeaning(h) && BlackBalanced(h)
    ensures BlackBalanced(InsertRb(h, key, value))
    ensures BlackHeight(InsertRb(h, key, value)) == BlackHeight(h)
    ensures NearlyLeftLeaning(InsertRb(h, key, value))
    ensures !IsRed(h) ==> LeftLeaning(InsertRb(h, key, value))
    ensures IsRed(h) ==> IsRed(InsertRb(h, key, value))
  {
    if h.Node? {
      if key < h.key {
        InsertRbBalance(h.left, key, value);
        InsertFixBalance(h.(left := InsertRb(h.left, key, value)));
      } else if key > h.key {
        InsertRbBalance(h.right, key, value);
        InsertFixBalance(h.(right := InsertRb(h.right, key, value)));
      } else {
        InsertFixBalance(h.(value := value));
      }
    }
  }
}
