/** The abstract meaning of `list::merge`: one linear pass over the
    receiver, taking the argument's first element only when the receiver
    is used up or that element is strictly smaller than the receiver's
    current one. The sequences are generic with a sort key so that the
    same definition describes both the element values and the node chain. */
module MergeSpec {
  import opened Sequences

  function MergeBy<T>(a: seq<T>, b: seq<T>, key: T -> int): seq<T>
    decreases |a| + |b|
  {
    if b == [] then a
    else if a == [] || key(b[0]) < key(a[0]) then [b[0]] + MergeBy(a, b[1..], key)
    else [a[0]] + MergeBy(a[1..], b, key)
  }

  /** One step of the scan of `merge()` with `done` final, `todo` left of
      the receiver and `rest` left of the argument: taking the argument's
      first element when the receiver is used up or that element is
      strictly smaller keeps the promised result. */
  lemma MergeTake<T>(done: seq<T>, todo: seq<T>, rest: seq<T>, key: T -> int)
    requires rest != [] && (todo == [] || key(rest[0]) < key(todo[0]))
    ensures (done + [rest[0]]) + MergeBy(todo, rest[1..], key) == done + MergeBy(todo, rest, key)
  {
    MergeHeadSecond(todo, rest, key);
  }

  /** The other step: otherwise the receiver's current element is final. */
  lemma MergeSkip<T>(done: seq<T>, todo: seq<T>, rest: seq<T>, key: T -> int)
    requires rest != [] && todo != [] && !(key(rest[0]) < key(todo[0]))
    ensures (done + [todo[0]]) + MergeBy(todo[1..], rest, key) == done + MergeBy(todo, rest, key)
  {
    MergeHeadFirst(todo, rest, key);
  }

  /** The scan ends when the argument is used up: the chain between the
      receiver's two ends is then the promised result, and the values `c`
      it holds are the merge of the two inputs' values. */
  lemma MergeScanDone<T>(ns: seq<T>, c: seq<int>, done: seq<T>, todo: seq<T>, a0: seq<T>, b0: seq<T>, key: T -> int)
    requires |ns| >= 2 && ns == [ns[0]] + done + todo + [ns[|ns| - 1]]
    requires |c| == |ns| - 2 && forall j :: 1 <= j < |ns| - 1 ==> key(ns[j]) == c[j - 1]
    requires done + MergeBy(todo, [], key) == MergeBy(a0, b0, key)
    ensures ns[1..|ns| - 1] == MergeBy(a0, b0, key)
    ensures c == MergeBy(Keys(a0, key), Keys(b0, key), Id)
  {
    var s := ns[1..|ns| - 1];
    assert s == done + todo;
    forall j | 0 <= j < |s| ensures key(s[j]) == c[j] {
      assert s[j] == ns[j + 1];
    }
    MergeValues(s, c, a0, b0, key);
  }

  /** What the node-level result means for the values: when `c` lists the
      keys of `s` and `s` merges `a0` and `b0`, then `c` merges their keys. */
  lemma MergeValues<T>(s: seq<T>, c: seq<int>, a0: seq<T>, b0: seq<T>, key: T -> int)
    requires |c| == |s| && forall j :: 0 <= j < |s| ==> key(s[j]) == c[j]
    requires s == MergeBy(a0, b0, key)
    ensures c == MergeBy(Keys(a0, key), Keys(b0, key), Id)
  {
    MergeKeys(a0, b0, key);
    assert c == Keys(s, key);
  }

  /** The merge is a shuffle of the two inputs that keeps each one's own order. */
  lemma {:induction false} MergeInterleaves<T>(a: seq<T>, b: seq<T>, key: T -> int)
    ensures Interleaving(MergeBy(a, b, key), a, b)
    decreases |a| + |b|
  {
    var r := MergeBy(a, b, key);
    if b == [] {
      InterleavingLeft(a);
    } else if a == [] || key(b[0]) < key(a[0]) {
      MergeInterleaves(a, b[1..], key);
      assert r[1..] == MergeBy(a, b[1..], key);
    } else {
      MergeInterleaves(a[1..], b, key);
      assert r[1..] == MergeBy(a[1..], b, key);
    }
  }

  /** Nothing is lost or duplicated: the merge is a permutation of both inputs together. */
  lemma MergePermutation<T>(a: seq<T>, b: seq<T>, key: T -> int)
    ensures |MergeBy(a, b, key)| == |a| + |b|
    ensures multiset(MergeBy(a, b, key)) == multiset(a) + multiset(b)
  {
    MergeInterleaves(a, b, key);
    InterleavingMultiset(MergeBy(a, b, key), a, b);
    assert |multiset(MergeBy(a, b, key))| == |multiset(a) + multiset(b)|;
  }

  /** Two sorted inputs give a sorted result. */
  lemma {:induction false} MergeSorted<T>(a: seq<T>, b: seq<T>, key: T -> int)
    requires SortedBy(a, key) && SortedBy(b, key)
    ensures SortedBy(MergeBy(a, b, key), key)
    decreases |a| + |b|
  {
    if b == [] {
    } else if a == [] || key(b[0]) < key(a[0]) {
      SortedTail(b, key);
      if a != [] {
        SortedTail(a, key);
      }
      MergeSorted(a, b[1..], key);
      var t := MergeBy(a, b[1..], key);
      MergePermutation(a, b[1..], key);
      forall y | y in t ensures key(b[0]) <= key(y) {
        assert y in multiset(t);
        assert y in a || y in b[1..];
      }
      SortedCons(b[0], t, key);
    } else {
      SortedTail(a, key);
      SortedTail(b, key);
      MergeSorted(a[1..], b, key);
      var t := MergeBy(a[1..], b, key);
      MergePermutation(a[1..], b, key);
      forall y | y in t ensures key(a[0]) <= key(y) {
        assert y in multiset(t);
        assert y in a[1..] || y in b;
      }
      SortedCons(a[0], t, key);
    }
  }

  lemma FilterCons<T>(x: T, t: seq<T>, key: T -> int, v: int)
    ensures Filter([x] + t, key, v) == (if key(x) == v then [x] else []) + Filter(t, key, v)
  {
    assert ([x] + t)[1..] == t;
  }

  /** In a sorted sequence whose first key is above `v`, no element has key `v`. */
  lemma {:induction false} FilterAbove<T>(s: seq<T>, key: T -> int, v: int)
    requires SortedBy(s, key)
    requires s != [] ==> v < key(s[0])
    ensures Filter(s, key, v) == []
    decreases |s|
  {
    if s != [] {
      SortedTail(s, key);
      if |s| > 1 {
        assert key(s[0]) <= key(s[1]);
      }
      FilterAbove(s[1..], key, v);
    }
  }

  /** The tie-break rule: for sorted inputs, the elements with any one key
      appear in the result as all of `a`'s (in their order) followed by all
      of `b`'s (in their order). */
  lemma {:induction false} MergeTieBreak<T>(a: seq<T>, b: seq<T>, key: T -> int, v: int)
    requires SortedBy(a, key) && SortedBy(b, key)
    ensures Filter(MergeBy(a, b, key), key, v) == Filter(a, key, v) + Filter(b, key, v)
    decreases |a| + |b|
  {
    if b == [] {
      assert MergeBy(a, b, key) == a;
      assert Filter(b, key, v) == [];
    } else if a == [] || key(b[0]) < key(a[0]) {
      SortedTail(b, key);
      MergeTieBreak(a, b[1..], key, v);
      if key(b[0]) == v {
        FilterAbove(a, key, v);
      }
      TieBreakTakeSecond(a, b, key, v);
    } else {
      SortedTail(a, key);
      MergeTieBreak(a[1..], b, key, v);
      TieBreakTakeFirst(a, b, key, v);
    }
  }

  /** The step of MergeTieBreak where the merge takes the head of `b`. */
  lemma TieBreakTakeSecond<T>(a: seq<T>, b: seq<T>, key: T -> int, v: int)
    requires b != [] && (a == [] || key(b[0]) < key(a[0]))
    requires key(b[0]) == v ==> Filter(a, key, v) == []
    requires Filter(MergeBy(a, b[1..], key), key, v) == Filter(a, key, v) + Filter(b[1..], key, v)
    ensures Filter(MergeBy(a, b, key), key, v) == Filter(a, key, v) + Filter(b, key, v)
  {
    var m := MergeBy(a, b[1..], key);
    var fa, fb := Filter(a, key, v), Filter(b[1..], key, v);
    MergeHeadSecond(a, b, key);
    FilterCons(b[0], m, key, v);
    if key(b[0]) == v {
      calc {
        Filter(MergeBy(a, b, key), key, v);
        [b[0]] + Filter(m, key, v);
        { assert fa + fb == fb; }
        [b[0]] + fb;
        Filter(b, key, v);
        { assert fa == []; }
        fa + Filter(b, key, v);
      }
    } else {
      calc {
        Filter(MergeBy(a, b, key), key, v);
        Filter(m, key, v);
        fa + fb;
        { assert Filter(b, key, v) == fb; }
        fa + Filter(b, key, v);
      }
    }
  }

  /** The step of MergeTieBreak where the merge takes the head of `a`. */
  lemma TieBreakTakeFirst<T>(a: seq<T>, b: seq<T>, key: T -> int, v: int)
    requires a != [] && b != [] && key(a[0]) <= key(b[0])
    requires Filter(MergeBy(a[1..], b, key), key, v) == Filter(a[1..], key, v) + Filter(b, key, v)
    ensures Filter(MergeBy(a, b, key), key, v) == Filter(a, key, v) + Filter(b, key, v)
  {
    var f := if key(a[0]) == v then [a[0]] else [];
    MergeHeadFirst(a, b, key);
    FilterCons(a[0], MergeBy(a[1..], b, key), key, v);
    assert Filter(a, key, v) == f + Filter(a[1..], key, v);
    AppendAssoc(f, Filter(a[1..], key, v), Filter(b, key, v));
  }

  /** When the receiver is used up or the argument's element is strictly
      smaller, the merge starts with the argument's element. */
  lemma MergeHeadSecond<T>(a: seq<T>, b: seq<T>, key: T -> int)
    requires b != [] && (a == [] || key(b[0]) < key(a[0]))
    ensures MergeBy(a, b, key) == [b[0]] + MergeBy(a, b[1..], key)
  {
  }

  /** When the receiver's element is not above the argument's, the merge
      starts with the receiver's element. */
  lemma MergeHeadFirst<T>(a: seq<T>, b: seq<T>, key: T -> int)
    requires a != [] && b != [] && key(a[0]) <= key(b[0])
    ensures MergeBy(a, b, key) == [a[0]] + MergeBy(a[1..], b, key)
  {
  }

  /** Merging items by key and then reading their keys is merging the keys. */
  lemma {:induction false} MergeKeys<T>(a: seq<T>, b: seq<T>, key: T -> int)
    ensures Keys(MergeBy(a, b, key), key) == MergeBy(Keys(a, key), Keys(b, key), Id)
    decreases |a| + |b|
  {
    var ka, kb := Keys(a, key), Keys(b, key);
    if b == [] {
    } else if a == [] || key(b[0]) < key(a[0]) {
      MergeKeys(a, b[1..], key);
      KeysCons(b[0], MergeBy(a, b[1..], key), key);
      assert kb[1..] == Keys(b[1..], key);
    } else {
      MergeKeys(a[1..], b, key);
      KeysCons(a[0], MergeBy(a[1..], b, key), key);
      assert ka[1..] == Keys(a[1..], key);
    }
  }

  /** The value of an element tagged with a name for its place of origin. */
  function Value(p: (int, char)): int
  {
    p.0
  }

  /** Example: merging [1,3,3,5] (its elements named 'a' to 'd') with
      [2,3,4] (named 'x' to 'z') puts the receiver's 3s 'b' and 'c', in that
      order, before the argument's 3 'y'. */
  lemma MergeExample()
    ensures MergeBy([(1, 'a'), (3, 'b'), (3, 'c'), (5, 'd')], [(2, 'x'), (3, 'y'), (4, 'z')], Value)
         == [(1, 'a'), (2, 'x'), (3, 'b'), (3, 'c'), (3, 'y'), (4, 'z'), (5, 'd')]
  {
  }
}
