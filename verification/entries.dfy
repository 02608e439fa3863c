/** Reference definitions of the two map updates on a sorted entry sequence.
    The tree operations are proved against these: a tree operation is correct
    when it does to the in-order walk what these do to a sequence. */
module Entries {
  import opened RbTree

  /** Insert-or-overwrite: the entry with `key` gets `value`; if there is none,
      (key, value) is placed in front of the first larger key. */
  function Upsert<V>(s: seq<(int, V)>, key: int, value: V): seq<(int, V)> {
    if |s| == 0 then [(key, value)]
    else if key < s[0].0 then [(key, value)] + s
    else if key == s[0].0 then [(key, value)] + s[1..]
    else [s[0]] + Upsert(s[1..], key, value)
  }

  /** Every entry with `key` dropped, the rest kept in order. */
  function Remove<V>(s: seq<(int, V)>, key: int): seq<(int, V)> {
    if |s| == 0 then []
    else if s[0].0 == key then Remove(s[1..], key)
    else [s[0]] + Remove(s[1..], key)
  }

  ghost predicate AllBelow<V>(s: seq<(int, V)>, key: int) {
    forall i | 0 <= i < |s| :: s[i].0 < key
  }

  ghost predicate AllAbove<V>(s: seq<(int, V)>, key: int) {
    forall i | 0 <= i < |s| :: key < s[i].0
  }

  /** On a sorted sequence an existing key keeps its place and only its value changes. */
  lemma {:induction false} UpsertPresent<V>(s: seq<(int, V)>, i: nat, key: int, value: V)
    requires Sorted(s) && i < |s| && s[i].0 == key
    ensures Upsert(s, key, value) == s[i := (key, value)]
  {
    if i > 0 {
      assert s[0].0 < s[i].0;
      assert Sorted(s[1..]) by {
        forall p, q | 0 <= p < q < |s[1..]| ensures s[1..][p].0 < s[1..][q].0 {
          assert s[1..][p] == s[p + 1] && s[1..][q] == s[q + 1];
        }
      }
      UpsertPresent(s[1..], i - 1, key, value);
      assert [s[0]] + s[1..][i - 1 := (key, value)] == s[i := (key, value)];
    } else {
      assert [(key, value)] + s[1..] == s[0 := (key, value)];
    }
  }

  /** At a split point where every key in front is smaller and every key behind
      larger, exactly the new entry is added, between the two parts. */
  lemma UpsertAbsent<V>(s: seq<(int, V)>, p: nat, key: int, value: V)
    requires p <= |s| && AllBelow(s[..p], key) && AllAbove(s[p..], key)
    ensures Upsert(s, key, value) == s[..p] + [(key, value)] + s[p..]
  {
    assert s == s[..p] + s[p..];
    UpsertAfter(s[..p], s[p..], key, value);
    UpsertBefore([], s[p..], key, value);
    assert [] + s[p..] == s[p..];
  }

  /** Entries all smaller than `key` in front are passed over unchanged. */
  lemma {:induction false} UpsertAfter<V>(a: seq<(int, V)>, b: seq<(int, V)>, key: int, value: V)
    requires AllBelow(a, key)
    ensures Upsert(a + b, key, value) == a + Upsert(b, key, value)
  {
    if |a| > 0 {
      assert (a + b)[0] == a[0];
      assert (a + b)[1..] == a[1..] + b;
      UpsertAfter(a[1..], b, key, value);
    } else {
      assert a + b == b;
    }
  }

  /** Entries all larger than `key` at the back are left unchanged. */
  lemma {:induction false} UpsertBefore<V>(a: seq<(int, V)>, b: seq<(int, V)>, key: int, value: V)
    requires AllAbove(b, key)
    ensures Upsert(a + b, key, value) == Upsert(a, key, value) + b
  {
    if |a| == 0 {
      assert a + b == b;
      if |b| > 0 {
        assert key < b[0].0;
      }
    } else if key <= a[0].0 {
      UpsertAtFront(a, b, key, value);
    } else {
      var c := a + b;
      assert c[0] == a[0] && c[1..] == a[1..] + b;
      UpsertBefore(a[1..], b, key, value);
    }
  }

  /** An upsert that stops at the first entry does not look further. */
  lemma UpsertAtFront<V>(a: seq<(int, V)>, b: seq<(int, V)>, key: int, value: V)
    requires |a| > 0 && key <= a[0].0
    ensures Upsert(a + b, key, value) == Upsert(a, key, value) + b
  {
    var c := a + b;
    assert c[0] == a[0] && c[1..] == a[1..] + b;
  }

  lemma {:induction false} RemoveConcat<V>(a: seq<(int, V)>, b: seq<(int, V)>, key: int)
    ensures Remove(a + b, key) == Remove(a, key) + Remove(b, key)
  {
    if |a| > 0 {
      assert (a + b)[0] == a[0];
      assert (a + b)[1..] == a[1..] + b;
      RemoveConcat(a[1..], b, key);
    } else {
      assert a + b == b;
    }
  }

  /** A sequence without `key` is left as it is. */
  lemma {:induction false} RemoveAbsent<V>(s: seq<(int, V)>, key: int)
    requires forall i | 0 <= i < |s| :: s[i].0 != key
    ensures Remove(s, key) == s
  {
    if |s| > 0 {
      RemoveAbsent(s[1..], key);
      assert [s[0]] + s[1..] == s;
    }
  }

  /** On a sorted sequence, removing an existing key deletes exactly its entry. */
  lemma RemovePresent<V>(s: seq<(int, V)>, i: nat, key: int)
    requires Sorted(s) && i < |s| && s[i].0 == key
    ensures Remove(s, key) == s[..i] + s[i + 1..]
  {
    var pre, rest := s[..i], s[i + 1..];
    assert s == pre + ([s[i]] + rest);
    RemoveConcat(pre, [s[i]] + rest, key);
    RemoveConcat([s[i]], rest, key);
    assert Remove([s[i]], key) == [] by {
      assert [s[i]][1..] == [];
    }
    forall j | 0 <= j < |pre| ensures pre[j].0 != key {
      assert pre[j] == s[j];
    }
    RemoveAbsent(pre, key);
    forall j | 0 <= j < |rest| ensures rest[j].0 != key {
      assert rest[j] == s[i + 1 + j];
    }
    RemoveAbsent(rest, key);
  }

  lemma SortedTail<V>(s: seq<(int, V)>)
    requires Sorted(s) && |s| > 0
    ensures Sorted(s[1..])
  {
    forall p, q | 0 <= p < q < |s[1..]| ensures s[1..][p].0 < s[1..][q].0 {
      assert s[1..][p] == s[p + 1] && s[1..][q] == s[q + 1];
    }
  }

  /** A sorted sequence stays sorted when an entry smaller than all of its keys
      is put in front. */
  lemma SortedCons<V>(e: (int, V), s: seq<(int, V)>)
    requires Sorted(s) && forall j | 0 <= j < |s| :: e.0 < s[j].0
    ensures Sorted([e] + s)
  {
    var u := [e] + s;
    forall i, j | 0 <= i < j < |u| ensures u[i].0 < u[j].0 {
      assert u[j] == s[j - 1];
      if i > 0 {
        assert u[i] == s[i - 1];
      }
    }
  }

  /** Every entry of an upsert is an old entry or carries `key`. */
  lemma {:induction false} UpsertEntries<V>(s: seq<(int, V)>, key: int, value: V)
    ensures forall e | e in Upsert(s, key, value) :: e in s || e.0 == key
  {
    if |s| > 0 && key > s[0].0 {
      UpsertEntries(s[1..], key, value);
      assert s == [s[0]] + s[1..];
    } else if |s| > 0 && key == s[0].0 {
      assert s == [s[0]] + s[1..];
    }
  }

  lemma {:induction false} UpsertSorted<V>(s: seq<(int, V)>, key: int, value: V)
    requires Sorted(s)
    ensures Sorted(Upsert(s, key, value))
  {
    if |s| == 0 {
    } else if key < s[0].0 {
      forall j | 0 <= j < |s| ensures key < s[j].0 {
        if j > 0 { assert s[0].0 < s[j].0; }
      }
      SortedCons((key, value), s);
    } else if key == s[0].0 {
      SortedTail(s);
      forall j | 0 <= j < |s[1..]| ensures key < s[1..][j].0 {
        assert s[1..][j] == s[j + 1];
      }
      SortedCons((key, value), s[1..]);
    } else {
      var rest := s[1..];
      SortedTail(s);
      UpsertSorted(rest, key, value);
      UpsertEntries(rest, key, value);
      var u := Upsert(rest, key, value);
      forall j | 0 <= j < |u| ensures s[0].0 < u[j].0 {
        assert u[j] in u;
        if u[j] in rest {
          var k :| 0 <= k < |rest| && rest[k] == u[j];
          assert rest[k] == s[k + 1];
        }
      }
      SortedCons(s[0], u);
    }
  }

  /** On a sorted sequence an upsert adds one entry exactly when `key` was absent. */
  lemma {:induction false} UpsertLength<V>(s: seq<(int, V)>, key: int, value: V)
    requires Sorted(s)
    ensures |Upsert(s, key, value)| == if key in SeqKeys(s) then |s| else |s| + 1
  {
    if |s| > 0 {
      assert s == [s[0]] + s[1..];
      SeqKeysConcat([s[0]], s[1..]);
      assert SeqKeys([s[0]]) == {s[0].0};
      if key > s[0].0 {
        SortedTail(s);
        UpsertLength(s[1..], key, value);
      }
    }
  }

  /** Every entry left by a removal is an old entry without `key`. */
  lemma {:induction false} RemoveEntries<V>(s: seq<(int, V)>, key: int)
    ensures forall e | e in Remove(s, key) :: e in s && e.0 != key
  {
    if |s| > 0 {
      RemoveEntries(s[1..], key);
      assert s == [s[0]] + s[1..];
    }
  }

  lemma {:induction false} RemoveSorted<V>(s: seq<(int, V)>, key: int)
    requires Sorted(s)
    ensures Sorted(Remove(s, key))
  {
    if |s| > 0 {
      var rest := s[1..];
      SortedTail(s);
      RemoveSorted(rest, key);
      if s[0].0 != key {
        RemoveEntries(rest, key);
        var u := Remove(rest, key);
        forall j | 0 <= j < |u| ensures s[0].0 < u[j].0 {
          assert u[j] in u;
          var k :| 0 <= k < |rest| && rest[k] == u[j];
          assert rest[k] == s[k + 1];
        }
        SortedCons(s[0], u);
      }
    }
  }

  /** In a search tree the head's key separates the two in-order halves. */
  lemma OrderedSplit<V>(t: Tree<V>)
    requires Ordered(t) && t.Node?
    ensures AllBelow(InOrder(t.left), t.key) && AllAbove(InOrder(t.right), t.key)
  {
    forall i | 0 <= i < |InOrder(t.left)| ensures InOrder(t.left)[i].0 < t.key {
      EntryKeyIn(t.left, InOrder(t.left)[i]);
    }
    forall i | 0 <= i < |InOrder(t.right)| ensures t.key < InOrder(t.right)[i].0 {
      EntryKeyIn(t.right, InOrder(t.right)[i]);
    }
  }
}
