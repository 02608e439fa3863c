/** The local restructuring steps of the balanced map: rotations, the colour
    flip, the two "move red" steps used on the way down during deletion, the
    fix-up applied on the way back up, and the minimum search. None of them
    changes the in-order walk. */
module Balance {
  import opened RbTree
  import opened Maybe

  /** `rotate_left`: the red-right child `x` becomes the head; `x` takes the old
      head's colour and the old head, now `x`'s left child, becomes red. */
  function RotateLeft<V>(h: Tree<V>): (r: Tree<V>)
    requires h.Node? && h.right.Node?
    ensures InOrder(r) == InOrder(h) && Keys(r) == Keys(h)
    ensures Ordered(h) ==> Ordered(r)
    ensures r.Node? && r.color == h.color
    ensures r.left.Node? && r.left.color == Red && r.left.key == h.key
  {
    var x := h.right;
    var r := x.(color := h.color, left := h.(color := Red, right := x.left));
    SameInOrderSameOrder(h, r);
    r
  }

  /** `rotate_right`: the mirror image of `RotateLeft`. */
  function RotateRight<V>(h: Tree<V>): (r: Tree<V>)
    requires h.Node? && h.left.Node?
    ensures InOrder(r) == InOrder(h) && Keys(r) == Keys(h)
    ensures Ordered(h) ==> Ordered(r)
    ensures r.Node? && r.color == h.color
    ensures r.right.Node? && r.right.color == Red && r.right.key == h.key
  {
    var x := h.left;
    var r := x.(color := h.color, right := h.(color := Red, left := x.right));
    SameInOrderSameOrder(h, r);
    r
  }

  /** `flip_colors`: the head is set RED and each present child BLACK (assigned,
      not toggled). */
  function FlipColors<V>(h: Tree<V>): (r: Tree<V>)
    requires h.Node?
    ensures InOrder(r) == InOrder(h) && Keys(r) == Keys(h)
    ensures Ordered(h) ==> Ordered(r)
    ensures r.Node? && r.color == Red && r.key == h.key
    ensures !IsRed(r.left) && !IsRed(r.right)
    ensures r.left.Leaf? == h.left.Leaf? && r.right.Leaf? == h.right.Leaf?
  {
    var r := h.(color := Red, left := Paint(h.left, Black), right := Paint(h.right, Black));
    SameInOrderSameOrder(h, r);
    r
  }

  /** `move_red_left`. `None`: the right child is missing, and the test of its
      left child dereferences null. */
  function MoveRedLeft<V>(h: Tree<V>): (r: Option<Tree<V>>)
    requires h.Node?
    ensures r.None? <==> h.right.Leaf?
    ensures r.Some? ==> r.value.Node? && InOrder(r.value) == InOrder(h) && Keys(r.value) == Keys(h)
    ensures r.Some? && Ordered(h) ==> Ordered(r.value) && h.key <= r.value.key
  {
    var f := FlipColors(h);
    if f.right.Leaf? then None
    else if IsRed(f.right.left) then
      Some(FlipColors(RotateLeft(f.(right := RotateRight(f.right)))))
    else Some(f)
  }

  /** `move_red_right`. `None`: the left child is missing, and the test of its
      left child dereferences null. */
  function MoveRedRight<V>(h: Tree<V>): (r: Option<Tree<V>>)
    requires h.Node?
    ensures r.None? <==> h.left.Leaf?
    ensures r.Some? ==> r.value.Node? && InOrder(r.value) == InOrder(h) && Keys(r.value) == Keys(h)
    ensures r.Some? && Ordered(h) ==> Ordered(r.value) && r.value.key <= h.key
  {
    var f := FlipColors(h);
    if f.left.Leaf? then None
    else if IsRed(f.left.left) then Some(FlipColors(RotateRight(f)))
    else Some(f)
  }

  /** `fix_up`: lean a red right link left, split a red-red left pair, then flip
      when both children are red. */
  function FixUp<V>(h: Tree<V>): (r: Tree<V>)
    requires h.Node?
    ensures r.Node? && InOrder(r) == InOrder(h) && Keys(r) == Keys(h)
    ensures Ordered(h) ==> Ordered(r)
  {
    var h1 := if IsRed(h.right) then RotateLeft(h) else h;
    var h2 := if IsRed(h1.left) && IsRed(h1.left.left) then RotateRight(h1) else h1;
    if IsRed(h2.left) && IsRed(h2.right) then FlipColors(h2) else h2
  }

  /** `min_node`, reporting the entry it finds. `None`: called on a missing
      node, which the source dereferences. */
  function MinEntry<V>(t: Tree<V>): (r: Option<(int, V)>)
    ensures r.None? <==> t.Leaf?
    ensures r.Some? ==> |InOrder(t)| > 0 && r.value == InOrder(t)[0] && r.value.0 in Keys(t)
    ensures r.Some? && Ordered(t) ==> forall x | x in Keys(t) :: r.value.0 <= x
  {
    match t
    case Leaf => None
    case Node(_, l, k, v, _) => if l.Leaf? then Some((k, v)) else MinEntry(l)
  }
}
