/** A worked run of the balanced container: seven insertions that build a
    perfect all-BLACK tree, then two erasures. Because `flip_colors` assigns
    RED to the node and BLACK to both children instead of inverting the three
    colours, the first erasure leaves a RED node whose two subtrees have
    different black heights, and the second then unlinks a node that still has
    a left child, losing an entry the caller never erased. */
module Scenarios {
  import opened RbTree
  import opened Maybe
  import opened Container

  function B(l: Tree<int>, k: int, v: int, r: Tree<int>): Tree<int> {
    Node(Black, l, k, v, r)
  }

  function R(l: Tree<int>, k: int, v: int, r: Tree<int>): Tree<int> {
    Node(Red, l, k, v, r)
  }

  function One(k: int, v: int): Tree<int> {
    B(Leaf, k, v, Leaf)
  }

  /** The container after inserting 50, 30, 70, 20, 40, 60, 80 with values 1 to 7. */
  const Step1: Bst<int> := Bst(One(50, 1), 1)
  const Step2: Bst<int> := Bst(B(R(Leaf, 30, 2, Leaf), 50, 1, Leaf), 2)
  const Step3: Bst<int> := Bst(B(One(30, 2), 50, 1, One(70, 3)), 3)
  const Step4: Bst<int> := Bst(B(B(R(Leaf, 20, 4, Leaf), 30, 2, Leaf), 50, 1, One(70, 3)), 4)
  const Step5: Bst<int> := Bst(B(R(One(20, 4), 30, 2, One(40, 5)), 50, 1, One(70, 3)), 5)
  const Step6: Bst<int> := Bst(B(R(One(20, 4), 30, 2, One(40, 5)), 50, 1, B(R(Leaf, 60, 6, Leaf), 70, 3, Leaf)), 6)
  const Step7: Bst<int> := Bst(B(B(One(20, 4), 30, 2, One(40, 5)), 50, 1, B(One(60, 6), 70, 3, One(80, 7))), 7)

  /** After `erase(30)` and then `erase(40)`. */
  const Erased30: Bst<int> := Bst(B(R(One(20, 4), 40, 5, Leaf), 50, 1, B(One(60, 6), 70, 3, One(80, 7))), 6)
  const Erased40: Bst<int> := Bst(B(Leaf, 50, 1, B(One(60, 6), 70, 3, One(80, 7))), 5)

  lemma BuildSteps()
    ensures Insert(Empty(), 50, 1) == Step1
    ensures Insert(Step1, 30, 2) == Step2
    ensures Insert(Step2, 70, 3) == Step3
  {
  }

  lemma BuildStep4()
    ensures Insert(Step3, 20, 4) == Step4
  {
  }

  lemma BuildStep5()
    ensures Insert(Step4, 40, 5) == Step5
  {
  }

  lemma BuildStep6()
    ensures Insert(Step5, 60, 6) == Step6
  {
  }

  lemma BuildStep7()
    ensures Insert(Step6, 80, 7) == Step7
  {
  }

  /** The seven insertions give a search tree meeting every red-black
      invariant, whose size counts its entries. */
  lemma BuiltTreeIsRedBlack()
    ensures Ordered(Step7.root) && RedBlack(Step7.root)
  {
  }

  lemma BuiltWalk()
    ensures InOrder(Step7.root) == [(20, 4), (30, 2), (40, 5), (50, 1), (60, 6), (70, 3), (80, 7)]
    ensures Tracks(Step7)
  {
  }

  /** `erase(30)` leaves the RED node 40 with a BLACK left child and no right
      child: the black heights below it differ. */
  lemma EraseBreaksBalance()
    ensures Erase(Step7, 30) == Some(Erased30)
    ensures !BlackBalanced(Erased30.root)
  {
  }

  /** `erase(40)` then drops 20 along with 40, while `_size` counts it. */
  lemma EraseLosesEntry()
    ensures Erase(Erased30, 40) == Some(Erased40)
    ensures 20 in Keys(Erased30.root) && 20 !in Keys(Erased40.root)
  {
  }

  lemma SizeStopsCounting()
    ensures Tracks(Erased30) && !Tracks(Erased40)
  {
  }

  /** What iteration visits after each erasure: the first still shows exactly
      the entries that should remain, the second has lost (20, 4). */
  lemma ErasedWalks()
    ensures InOrder(Erased30.root) == [(20, 4), (40, 5), (50, 1), (60, 6), (70, 3), (80, 7)]
    ensures InOrder(Erased40.root) == [(50, 1), (60, 6), (70, 3), (80, 7)]
  {
  }

  /** After inserting 0, 1, 2, 3 with values 1 to 4: a BLACK root 1 over the
      BLACK 0 and a BLACK 3 whose left child is the RED 2. */
  const Small: Bst<int> := Bst(B(One(0, 1), 1, 2, B(R(Leaf, 2, 3, Leaf), 3, 4, Leaf)), 4)

  lemma BuildSmall()
    ensures Insert(Insert(Insert(Insert(Empty(), 0, 1), 1, 2), 2, 3), 3, 4) == Small
  {
  }

  /** Erasing a key that IS present from a valid red-black search tree can also
      dereference null: `move_red_left` at the root 1 leaves the RED 2 over the
      BLACK 1, whose left child is 0 and whose right child is missing; the
      descent into 1 then calls `move_red_left` on it and reads
      `h->right->left` through the missing right child. */
  lemma ErasePresentCrashes()
    ensures Ordered(Small.root) && RedBlack(Small.root) && 0 in Keys(Small.root)
    ensures Erase(Small, 0).None?
    ensures EraseChecked(Small, 0).None?
  {
  }
}
