/** Recursive left-leaning red-black deletion (`erase_rb`), modelled with the
    source's null dereferences made explicit: `None` is a run that dereferences
    a missing node. The two branches of `erase_rb` are `EraseLeft` and
    `EraseRight`. */
module LlrbErase {
  import opened RbTree
  import opened Maybe
  import opened Balance

  /** `erase_rb`. A missing node is dereferenced straight away. */
  function EraseRb<V>(h: Tree<V>, key: int): (r: Option<Tree<V>>)
    ensures r.Some? ==> key in Keys(h) && Keys(r.value) <= Keys(h)
    ensures r.Some? ==> |InOrder(r.value)| < |InOrder(h)|
    ensures r.Some? ==> forall e | e in InOrder(r.value) :: e in InOrder(h)
    decreases |InOrder(h)|, 1
  {
    if h.Leaf? then None
    else if key < h.key then EraseLeft(h, key)
    else EraseRight(h, key)
  }

  /** The key is smaller than the head's: borrow a red link from the right when
      the left child and its left child are both black, then delete in the left
      subtree and fix up. */
  function EraseLeft<V>(h: Tree<V>, key: int): (r: Option<Tree<V>>)
    requires h.Node? && key < h.key
    ensures r.Some? ==> key in Keys(h) && Keys(r.value) <= Keys(h)
    ensures r.Some? ==> |InOrder(r.value)| < |InOrder(h)|
    ensures r.Some? ==> forall e | e in InOrder(r.value) :: e in InOrder(h)
    decreases |InOrder(h)|, 0
  {
    var h1 :- if !IsRed(h.left) && !IsRed(if h.left.Node? then h.left.left else Leaf)
              then MoveRedLeft(h) else Some(h);
    var l :- EraseRb(h1.left, key);
    Some(FixUp(h1.(left := l)))
  }

  /** The key is not smaller than the head's: lean a red left link right; a
      matching head without a right child goes, with everything under it;
      otherwise borrow a red link from the left when the right child and its
      left child are both black, then either replace a matching head's entry
      with the right subtree's minimum and delete that minimum there, or delete
      in the right subtree; fix up. */
  function EraseRight<V>(h: Tree<V>, key: int): (r: Option<Tree<V>>)
    requires h.Node? && key >= h.key
    ensures r.Some? ==> key in Keys(h) && Keys(r.value) <= Keys(h)
    ensures r.Some? ==> |InOrder(r.value)| < |InOrder(h)|
    ensures r.Some? ==> forall e | e in InOrder(r.value) :: e in InOrder(h)
    decreases |InOrder(h)|, 0
  {
    var h1 := if IsRed(h.left) then RotateRight(h) else h;
    if key == h1.key && h1.right.Leaf? then Some(Leaf)
    else
      var h2 :- if !IsRed(h1.right) && !IsRed(if h1.right.Node? then h1.right.left else Leaf)
                then MoveRedRight(h1) else Some(h1);
      if key == h2.key then
        var min :- MinEntry(h2.right);
        var r :- EraseRb(h2.right, min.0);
        Some(FixUp(h2.(key := min.0, value := min.1, right := r)))
      else
        var r :- EraseRb(h2.right, key);
        Some(FixUp(h2.(right := r)))
  }

  /** Whenever `EraseRb` returns normally on a search tree, the result is a
      search tree without `key`. */
  lemma {:induction false} EraseRbOrdered<V>(h: Tree<V>, key: int)
    requires Ordered(h) && EraseRb(h, key).Some?
    ensures Ordered(EraseRb(h, key).value) && key !in Keys(EraseRb(h, key).value)
    decreases |InOrder(h)|, 1
  {
    if key < h.key {
      EraseLeftOrdered(h, key);
    } else {
      EraseRightOrdered(h, key);
    }
  }

  lemma {:induction false} EraseLeftOrdered<V>(h: Tree<V>, key: int)
    requires h.Node? && key < h.key
    requires Ordered(h) && EraseLeft(h, key).Some?
    ensures Ordered(EraseLeft(h, key).value) && key !in Keys(EraseLeft(h, key).value)
    decreases |InOrder(h)|, 0
  {
    var h1 := if !IsRed(h.left) && !IsRed(if h.left.Node? then h.left.left else Leaf)
              then MoveRedLeft(h).value else h;
    var l := EraseRb(h1.left, key).value;
    assert EraseLeft(h, key).value == FixUp(h1.(left := l));
    EraseRbOrdered(h1.left, key);
    OrderedReplaceLeft(h1, l, key);
  }

  lemma {:induction false} EraseRightOrdered<V>(h: Tree<V>, key: int)
    requires h.Node? && key >= h.key
    requires Ordered(h) && EraseRight(h, key).Some?
    ensures Ordered(EraseRight(h, key).value) && key !in Keys(EraseRight(h, key).value)
    decreases |InOrder(h)|, 0
  {
    var h1 := if IsRed(h.left) then RotateRight(h) else h;
    if !(key == h1.key && h1.right.Leaf?) {
      var h2 := if !IsRed(h1.right) && !IsRed(if h1.right.Node? then h1.right.left else Leaf)
                then MoveRedRight(h1).value else h1;
      if key == h2.key {
        var min := MinEntry(h2.right).value;
        var rr := EraseRb(h2.right, min.0).value;
        assert EraseRight(h, key).value == FixUp(h2.(key := min.0, value := min.1, right := rr));
        EraseRbOrdered(h2.right, min.0);
        OrderedReplaceHead(h2, min.0, min.1, rr);
      } else {
        var rr := EraseRb(h2.right, key).value;
        assert EraseRight(h, key).value == FixUp(h2.(right := rr));
        EraseRbOrdered(h2.right, key);
        assert h1.key <= h.key;
        OrderedReplaceRight(h2, rr, key);
      }
    }
  }

  lemma OrderedReplaceLeft<V>(t: Tree<V>, l: Tree<V>, key: int)
    requires t.Node? && Ordered(t) && Ordered(l) && Keys(l) <= Keys(t.left)
    requires key < t.key && key !in Keys(l)
    ensures Ordered(t.(left := l)) && key !in Keys(t.(left := l))
  {
  }

  lemma OrderedReplaceRight<V>(t: Tree<V>, r: Tree<V>, key: int)
    requires t.Node? && Ordered(t) && Ordered(r) && Keys(r) <= Keys(t.right)
    requires t.key < key && key !in Keys(r)
    ensures Ordered(t.(right := r)) && key !in Keys(t.(right := r))
  {
  }

  /** The successor step: the head takes the right subtree's minimum key `k`,
      and the right subtree loses it. */
  lemma OrderedReplaceHead<V>(t: Tree<V>, k: int, v: V, r: Tree<V>)
    requires t.Node? && Ordered(t) && Ordered(r)
    requires k in Keys(t.right) && forall x | x in Keys(t.right) :: k <= x
    requires Keys(r) <= Keys(t.right) && k !in Keys(r)
    ensures Ordered(t.(key := k, value := v, right := r))
    ensures t.key !in Keys(t.(key := k, value := v, right := r))
  {
  }
}
