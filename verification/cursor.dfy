/** Iterators. The source steps a node pointer along parent back-links; here an
    iterator is a zipper: the focused node's fields plus the path of frames
    from it up to the root (innermost first), each frame holding the side the
    step came from and the parent's colour, entry and other subtree. `End` is
    the null iterator. The const and non-const iterators step identically, so
    one model serves both. */
module Iterators {
  import opened RbTree

  datatype Dir = Left | Right

  function Flip(d: Dir): Dir {
    if d == Left then Right else Left
  }

  function Child<V>(t: Tree<V>, d: Dir): Tree<V>
    requires t.Node?
  {
    if d == Left then t.left else t.right
  }

  /** One level of the path: the focus is the `dir` child of a parent with
      these colour, key and value, whose other child is `sibling`. */
  datatype Frame<V> = Frame(dir: Dir, color: Color, key: int, value: V, sibling: Tree<V>)

  datatype Cursor<V> =
    | End
    | At(path: seq<Frame<V>>, color: Color, left: Tree<V>, key: int, value: V, right: Tree<V>)

  /** The subtree a frame's parent heads, given its `dir` child. */
  function Attach<V>(f: Frame<V>, t: Tree<V>): (r: Tree<V>)
    ensures r.Node? && Child(r, f.dir) == t && Child(r, Flip(f.dir)) == f.sibling
    ensures r.color == f.color && r.key == f.key && r.value == f.value
  {
    if f.dir == Left then Node(f.color, t, f.key, f.value, f.sibling)
    else Node(f.color, f.sibling, f.key, f.value, t)
  }

  /** The whole tree rebuilt from a path and the subtree at its bottom. */
  function Plug<V>(p: seq<Frame<V>>, t: Tree<V>): (r: Tree<V>)
    ensures t.Node? ==> r.Node?
    decreases |p|
  {
    if |p| == 0 then t else Plug(p[1..], Attach(p[0], t))
  }

  function AtNode<V>(p: seq<Frame<V>>, t: Tree<V>): Cursor<V>
    requires t.Node?
  {
    At(p, t.color, t.left, t.key, t.value, t.right)
  }

  function Focus<V>(c: Cursor<V>): Tree<V>
    requires c.At?
  {
    Node(c.color, c.left, c.key, c.value, c.right)
  }

  /** The tree an iterator walks. */
  function Whole<V>(c: Cursor<V>): Tree<V>
    requires c.At?
  {
    Plug(c.path, Focus(c))
  }

  /** The entries of the whole tree that come before, respectively after, the
      subtree at the bottom of a path. */
  function Before<V>(p: seq<Frame<V>>): seq<(int, V)>
    decreases |p|
  {
    if |p| == 0 then []
    else if p[0].dir == Right then Before(p[1..]) + InOrder(p[0].sibling) + [(p[0].key, p[0].value)]
    else Before(p[1..])
  }

  function After<V>(p: seq<Frame<V>>): seq<(int, V)>
    decreases |p|
  {
    if |p| == 0 then []
    else if p[0].dir == Left then [(p[0].key, p[0].value)] + InOrder(p[0].sibling) + After(p[1..])
    else After(p[1..])
  }

  /** Position of the focused entry in the in-order walk of the whole tree. */
  function Index<V>(c: Cursor<V>): nat
    requires c.At?
  {
    |Before(c.path)| + |InOrder(c.left)|
  }

  lemma {:induction false} PlugInOrder<V>(p: seq<Frame<V>>, t: Tree<V>)
    ensures InOrder(Plug(p, t)) == Before(p) + InOrder(t) + After(p)
    decreases |p|
  {
    if |p| > 0 {
      PlugInOrder(p[1..], Attach(p[0], t));
    }
  }

  /** An iterator denotes the entry at its index in the in-order walk. */
  lemma IndexEntry<V>(c: Cursor<V>)
    requires c.At?
    ensures Index(c) < |InOrder(Whole(c))|
    ensures InOrder(Whole(c))[Index(c)] == (c.key, c.value)
  {
    var b, l, e, r, a := Before(c.path), InOrder(c.left), (c.key, c.value), InOrder(c.right), After(c.path);
    PlugInOrder(c.path, Focus(c));
    assert InOrder(Whole(c)) == b + (l + [e] + r) + a;
    assert b + (l + [e] + r) + a == (b + l) + [e] + (r + a);
    ElementAt(b + l, e, r + a);
  }

  lemma ElementAt<T>(front: seq<T>, e: T, back: seq<T>)
    ensures |front| < |front + [e] + back| && (front + [e] + back)[|front|] == e
  {
  }

  /** Walk down from `t` along `d` links as far as they go (`leftmost` for
      `Left`), pushing a frame per step. */
  function Descend<V>(d: Dir, p: seq<Frame<V>>, t: Tree<V>): (c: Cursor<V>)
    requires t.Node?
    ensures c.At? && Whole(c) == Plug(p, t)
    ensures Child(Focus(c), d).Leaf?
    decreases t
  {
    if Child(t, d).Leaf? then AtNode(p, t)
    else Descend(d, [Frame(d, t.color, t.key, t.value, Child(t, Flip(d)))] + p, Child(t, d))
  }

  /** Climb while the subtree `t` we come from is the `d` child of its parent;
      the first parent reached from the other side is the result, running off
      the root gives `End`. */
  function Climb<V>(d: Dir, p: seq<Frame<V>>, t: Tree<V>): (c: Cursor<V>)
    ensures c.At? ==> Whole(c) == Plug(p, t)
    decreases |p|
  {
    if |p| == 0 then End
    else if p[0].dir == d then Climb(d, p[1..], Attach(p[0], t))
    else AtNode(p[1..], Attach(p[0], t))
  }

  /** One step in direction `d`: into the `d` subtree and then as far as possible
      the other way when there is one, otherwise up. */
  function Step<V>(d: Dir, c: Cursor<V>): (r: Cursor<V>)
    requires c.At?
    ensures r.At? ==> Whole(r) == Whole(c)
  {
    var t := Focus(c);
    if Child(t, d).Node? then
      var f := Frame(d, c.color, c.key, c.value, Child(t, Flip(d)));
      assert ([f] + c.path)[1..] == c.path;
      assert Attach(f, Child(t, d)) == t;
      Descend(Flip(d), [f] + c.path, Child(t, d))
    else Climb(d, c.path, t)
  }

  /** `operator++`: the next entry of the in-order walk of the same tree, or
      `End` from the last one. */
  function Next<V>(c: Cursor<V>): (n: Cursor<V>)
    requires c.At?
    ensures n.At? ==> Whole(n) == Whole(c) && Index(n) == Index(c) + 1
    ensures n.End? <==> Index(c) + 1 == |InOrder(Whole(c))|
  {
    StepIndex(Right, c);
    Step(Right, c)
  }

  /** `operator--`: the previous entry of the in-order walk of the same tree,
      or `End` from the first one. */
  function Prev<V>(c: Cursor<V>): (n: Cursor<V>)
    requires c.At?
    ensures n.At? ==> Whole(n) == Whole(c) && Index(n) + 1 == Index(c)
    ensures n.End? <==> Index(c) == 0
  {
    StepIndex(Left, c);
    Step(Left, c)
  }

  lemma {:induction false} DescendIndex<V>(d: Dir, p: seq<Frame<V>>, t: Tree<V>)
    requires t.Node?
    ensures d == Left ==> Index(Descend(d, p, t)) == |Before(p)|
    ensures d == Right ==> Index(Descend(d, p, t)) == |Before(p)| + |InOrder(t)| - 1
    decreases t
  {
    if Child(t, d).Node? {
      DescendIndex(d, [Frame(d, t.color, t.key, t.value, Child(t, Flip(d)))] + p, Child(t, d));
    }
  }

  lemma {:induction false} ClimbIndex<V>(d: Dir, p: seq<Frame<V>>, t: Tree<V>)
    ensures d == Right && Climb(d, p, t).At? ==> Index(Climb(d, p, t)) == |Before(p)| + |InOrder(t)|
    ensures d == Right ==> (Climb(d, p, t).End? <==> |After(p)| == 0)
    ensures d == Left && Climb(d, p, t).At? ==> Index(Climb(d, p, t)) + 1 == |Before(p)|
    ensures d == Left ==> (Climb(d, p, t).End? <==> |Before(p)| == 0)
    decreases |p|
  {
    if |p| > 0 && p[0].dir == d {
      ClimbIndex(d, p[1..], Attach(p[0], t));
    }
  }

  lemma StepIndex<V>(d: Dir, c: Cursor<V>)
    requires c.At?
    ensures Step(d, c).At? ==> Whole(Step(d, c)) == Whole(c)
    ensures d == Right && Step(d, c).At? ==> Index(Step(d, c)) == Index(c) + 1
    ensures d == Right ==> (Step(d, c).End? <==> Index(c) + 1 == |InOrder(Whole(c))|)
    ensures d == Left && Step(d, c).At? ==> Index(Step(d, c)) + 1 == Index(c)
    ensures d == Left ==> (Step(d, c).End? <==> Index(c) == 0)
  {
    var t := Focus(c);
    PlugInOrder(c.path, t);
    if Child(t, d).Node? {
      var f := Frame(d, c.color, c.key, c.value, Child(t, Flip(d)));
      assert Attach(f, Child(t, d)) == t;
      assert Plug([f] + c.path, Child(t, d)) == Plug(c.path, t) by {
        assert ([f] + c.path)[1..] == c.path;
      }
      DescendIndex(Flip(d), [f] + c.path, Child(t, d));
      assert ([f] + c.path)[1..] == c.path;
    } else {
      ClimbIndex(d, c.path, t);
    }
  }

  /** Stepping back undoes a step that did not run off the end: `--` after `++`
      and `++` after `--` return to the same iterator. */
  lemma StepBack<V>(d: Dir, c: Cursor<V>)
    requires c.At? && Step(d, c).At?
    ensures Step(Flip(d), Step(d, c)) == c
  {
    var t := Focus(c);
    if Child(t, d).Node? {
      var f := Frame(d, c.color, c.key, c.value, Child(t, Flip(d)));
      DescendClimb(Flip(d), [f] + c.path, Child(t, d));
      assert ([f] + c.path)[1..] == c.path;
      assert Attach(f, Child(t, d)) == t;
    } else {
      ClimbDescend(d, c.path, [], t);
      assert [] + c.path == c.path;
    }
  }

  lemma NextPrev<V>(c: Cursor<V>)
    requires c.At? && Next(c).At?
    ensures Prev(Next(c)) == c
  {
    StepBack(Right, c);
  }

  lemma PrevNext<V>(c: Cursor<V>)
    requires c.At? && Prev(c).At?
    ensures Next(Prev(c)) == c
  {
    StepBack(Left, c);
  }

  /** Climbing back out of a descent along `d` reaches the same place as
      climbing out of its starting point. */
  lemma {:induction false} DescendClimb<V>(d: Dir, p: seq<Frame<V>>, t: Tree<V>)
    requires t.Node?
    ensures Climb(d, Descend(d, p, t).path, Focus(Descend(d, p, t))) == Climb(d, p, t)
    decreases t
  {
    if Child(t, d).Node? {
      var f := Frame(d, t.color, t.key, t.value, Child(t, Flip(d)));
      DescendClimb(d, [f] + p, Child(t, d));
      assert ([f] + p)[1..] == p;
      assert Attach(f, Child(t, d)) == t;
    }
  }

  lemma {:induction false} PlugAppend<V>(s: seq<Frame<V>>, p: seq<Frame<V>>, t: Tree<V>)
    ensures Plug(s + p, t) == Plug(p, Plug(s, t))
    decreases |s|
  {
    if |s| > 0 {
      assert (s + p)[0] == s[0];
      assert (s + p)[1..] == s[1..] + p;
      PlugAppend(s[1..], p, Attach(s[0], t));
    } else {
      assert s + p == p;
    }
  }

  /** Descending along `d` through a stack of `d` frames rebuilds them exactly. */
  lemma {:induction false} DescendPlug<V>(d: Dir, p: seq<Frame<V>>, s: seq<Frame<V>>, t: Tree<V>)
    requires t.Node? && Child(t, d).Leaf?
    requires forall i | 0 <= i < |s| :: s[i].dir == d
    ensures Descend(d, p, Plug(s, t)) == AtNode(s + p, t)
    decreases |s|
  {
    if |s| == 0 {
      assert s + p == p;
    } else {
      var n := |s| - 1;
      var f, e := s[n], s[..n];
      assert s == e + [f];
      assert f.dir == d;
      assert forall i | 0 <= i < |e| :: e[i].dir == d by {
        forall i | 0 <= i < |e| ensures e[i].dir == d {
          assert e[i] == s[i];
        }
      }
      PlugAppend(e, [f], t);
      var x := Plug(e, t);
      assert Plug([f], x) == Attach(f, x) by {
        assert [f][1..] == [];
      }
      var y := Attach(f, x);
      assert Plug(s, t) == y;
      assert x.Node? && Child(y, d) == x;
      assert Frame(d, y.color, y.key, y.value, Child(y, Flip(d))) == f;
      assert Descend(d, p, y) == Descend(d, [f] + p, x);
      DescendPlug(d, [f] + p, e, t);
      assert e + ([f] + p) == s + p;
    }
  }

  /** The climb of `Step(d, ...)` is undone by the descent of `Step(Flip(d), ...)`:
      `s` is the stack of `d` frames climbed so far. */
  lemma {:induction false} ClimbDescend<V>(d: Dir, p: seq<Frame<V>>, s: seq<Frame<V>>, t: Tree<V>)
    requires t.Node? && Child(t, d).Leaf?
    requires forall i | 0 <= i < |s| :: s[i].dir == d
    requires Climb(d, p, Plug(s, t)).At?
    ensures Step(Flip(d), Climb(d, p, Plug(s, t))) == AtNode(s + p, t)
    decreases |p|
  {
    var f, x := p[0], Plug(s, t);
    if f.dir == d {
      var s' := s + [f];
      assert Plug(s', t) == Attach(f, x) by {
        PlugAppend(s, [f], t);
        assert [f][1..] == [];
      }
      assert forall i | 0 <= i < |s'| :: s'[i].dir == d by {
        forall i | 0 <= i < |s'| ensures s'[i].dir == d {
          if i < |s| { assert s'[i] == s[i]; }
        }
      }
      assert Climb(d, p, x) == Climb(d, p[1..], Plug(s', t));
      ClimbDescend(d, p[1..], s', t);
      assert s' + p[1..] == s + p by {
        assert p == [f] + p[1..];
      }
    } else {
      var y := Attach(f, x);
      assert Climb(d, p, x) == AtNode(p[1..], y);
      assert Child(y, Flip(d)) == x && Child(y, d) == f.sibling;
      assert Frame(Flip(d), y.color, y.key, y.value, Child(y, d)) == f;
      assert Step(Flip(d), AtNode(p[1..], y)) == Descend(d, [f] + p[1..], x);
      assert [f] + p[1..] == p;
      DescendPlug(d, p, s, t);
    }
  }
}
