/** Sequence vocabulary shared by the list model: positional insert and
    remove (the abstract meaning of splicing a node in or out), sort keys,
    ordering, per-key filtering and interleavings. */
module Sequences {

  /** The identity key: elements that are their own sort key. */
  function Id(x: int): int { x }

  /** The sort keys of a sequence, position by position. */
  function Keys<T>(s: seq<T>, key: T -> int): (r: seq<int>)
    ensures |r| == |s|
    ensures forall j :: 0 <= j < |s| ==> r[j] == key(s[j])
  {
    if s == [] then [] else [key(s[0])] + Keys(s[1..], key)
  }

  lemma KeysCons<T>(x: T, t: seq<T>, key: T -> int)
    ensures Keys([x] + t, key) == [key(x)] + Keys(t, key)
  {
    assert ([x] + t)[1..] == t;
  }

  /** Ascending by key (ties allowed), as `operator<` of the element type orders it. */
  ghost predicate SortedBy<T>(s: seq<T>, key: T -> int)
  {
    forall i, j :: 0 <= i < j < |s| ==> key(s[i]) <= key(s[j])
  }

  ghost predicate Ascending(s: seq<int>)
  {
    SortedBy(s, Id)
  }

  /** `s` with `x` placed at position `k`, so that it precedes the old `s[k]`. */
  function InsertAt<T>(s: seq<T>, k: int, x: T): seq<T>
    requires 0 <= k <= |s|
  {
    s[..k] + [x] + s[k..]
  }

  /** `s` without its element at position `k`. */
  function RemoveAt<T>(s: seq<T>, k: int): seq<T>
    requires 0 <= k < |s|
  {
    s[..k] + s[k + 1..]
  }

  /** Position by position: before `k` the old elements, at `k` the new
      one, after it the old elements shifted by one. */
  lemma InsertAtIndex<T>(s: seq<T>, k: int, x: T)
    requires 0 <= k <= |s|
    ensures |InsertAt(s, k, x)| == |s| + 1 && InsertAt(s, k, x)[k] == x
    ensures forall j :: 0 <= j < k ==> InsertAt(s, k, x)[j] == s[j]
    ensures forall j :: k < j <= |s| ==> InsertAt(s, k, x)[j] == s[j - 1]
  {
  }

  /** Every element after an insertion was there before or is the new one. */
  lemma InsertAtFrom<T>(s: seq<T>, k: int, x: T)
    requires 0 <= k <= |s|
    ensures forall j :: 0 <= j <= |s| ==> InsertAt(s, k, x)[j] in s || InsertAt(s, k, x)[j] == x
  {
    InsertAtIndex(s, k, x);
  }

  /** Inserting an element not yet present keeps a sequence free of repeats. */
  lemma InsertAtDistinct<T>(s: seq<T>, k: int, x: T)
    requires 0 <= k <= |s| && Distinct(s) && x !in s
    ensures Distinct(InsertAt(s, k, x))
  {
    InsertAtIndex(s, k, x);
    var r := InsertAt(s, k, x);
    forall a, b | 0 <= a < b < |r| ensures r[a] != r[b] {
      var a' := if a < k then a else a - 1;
      var b' := if b < k then b else b - 1;
      if a != k && b != k {
        assert r[a] == s[a'] && r[b] == s[b'];
      } else if a == k {
        assert r[b] == s[b'];
      } else {
        assert r[a] == s[a'];
      }
    }
  }

  /** Position by position: before `k` the old elements, from `k` on the
      old elements shifted back by one. */
  lemma RemoveAtIndex<T>(s: seq<T>, k: int)
    requires 0 <= k < |s|
    ensures |RemoveAt(s, k)| == |s| - 1
    ensures forall j :: 0 <= j < k ==> RemoveAt(s, k)[j] == s[j]
    ensures forall j :: k <= j < |s| - 1 ==> RemoveAt(s, k)[j] == s[j + 1]
  {
  }

  /** Every element left after a removal was there before. */
  lemma RemoveAtFrom<T>(s: seq<T>, k: int)
    requires 0 <= k < |s|
    ensures forall j :: 0 <= j < |s| - 1 ==> RemoveAt(s, k)[j] in s
  {
    RemoveAtIndex(s, k);
  }

  /** Removing an element keeps a sequence free of repeats. */
  lemma RemoveAtKeepsDistinct<T>(s: seq<T>, k: int)
    requires 0 <= k < |s| && Distinct(s)
    ensures Distinct(RemoveAt(s, k))
  {
    RemoveAtIndex(s, k);
    var r := RemoveAt(s, k);
    forall a, b | 0 <= a < b < |r| ensures r[a] != r[b] {
      var a' := if a < k then a else a + 1;
      var b' := if b < k then b else b + 1;
      assert r[a] == s[a'] && r[b] == s[b'];
    }
  }

  /** A chain `[h] + done + todo + [t]` losing the second element of `todo`. */
  lemma RemoveAtSplit<T>(ns: seq<T>, h: T, done: seq<T>, todo: seq<T>, t: T)
    requires ns == [h] + done + todo + [t] && |todo| >= 2
    ensures RemoveAt(ns, |done| + 2) == [h] + done + ([todo[0]] + todo[2..]) + [t]
  {
    var k := |done| + 2;
    var l, r := RemoveAt(ns, k), [h] + done + ([todo[0]] + todo[2..]) + [t];
    assert |l| == |r|;
    forall j | 0 <= j < |l| ensures l[j] == r[j] {
      if j < k {
        assert l[j] == ns[j];
      } else {
        assert l[j] == ns[j + 1];
      }
    }
  }

  /** When every inner element of `ns` has key `c[j - 1]`, removing the
      inner element at `k` and the value at `k - 1` keeps that pairing. */
  lemma RemoveAtPaired<T>(ns: seq<T>, c: seq<int>, k: int, key: T -> int)
    requires |c| == |ns| - 2 && 1 <= k < |ns| - 1
    requires forall j :: 1 <= j < |ns| - 1 ==> key(ns[j]) == c[j - 1]
    ensures forall j :: 1 <= j < |ns| - 2 ==> key(RemoveAt(ns, k)[j]) == RemoveAt(c, k - 1)[j - 1]
  {
    forall j | 1 <= j < |ns| - 2 ensures key(RemoveAt(ns, k)[j]) == RemoveAt(c, k - 1)[j - 1] {
      if j < k {
        assert RemoveAt(ns, k)[j] == ns[j] && RemoveAt(c, k - 1)[j - 1] == c[j - 1];
      } else {
        assert RemoveAt(ns, k)[j] == ns[j + 1] && RemoveAt(c, k - 1)[j - 1] == c[j];
      }
    }
  }

  /** The keys of the inner elements of `ns` are `c`, position by position. */
  lemma KeysInner<T>(ns: seq<T>, c: seq<int>, key: T -> int)
    requires |ns| >= 2 && Keys(ns[1..|ns| - 1], key) == c
    ensures |c| == |ns| - 2 && forall j :: 1 <= j < |ns| - 1 ==> key(ns[j]) == c[j - 1]
  {
    forall j | 1 <= j < |ns| - 1 ensures key(ns[j]) == c[j - 1] {
      assert ns[1..|ns| - 1][j - 1] == ns[j];
    }
  }

  /** A chain `[h] + done + todo + [t]` gaining `x` just after `done`. */
  lemma InsertAtSplit<T>(ns: seq<T>, h: T, done: seq<T>, todo: seq<T>, t: T, x: T)
    requires ns == [h] + done + todo + [t]
    ensures InsertAt(ns, |done| + 1, x) == [h] + (done + [x]) + todo + [t]
  {
    var k := |done| + 1;
    assert ns[..k] == [h] + done;
    assert ns[k..] == todo + [t];
  }

  /** A chain `[h] + rest + [t]` losing the first element of `rest`. */
  lemma RemoveFirstInner<T>(ns: seq<T>, h: T, rest: seq<T>, t: T)
    requires ns == [h] + rest + [t] && rest != []
    ensures RemoveAt(ns, 1) == [h] + rest[1..] + [t]
  {
    assert ns[..1] == [h];
    assert ns[2..] == rest[1..] + [t];
  }

  /** When every inner element of `ns` has key `c[j - 1]`, inserting `x`
      at `k` and its key at `k - 1` keeps that pairing. */
  lemma InsertAtPaired<T>(ns: seq<T>, c: seq<int>, k: int, x: T, key: T -> int)
    requires |c| == |ns| - 2 && 1 <= k < |ns|
    requires forall j :: 1 <= j < |ns| - 1 ==> key(ns[j]) == c[j - 1]
    ensures forall j :: 1 <= j < |ns| ==> key(InsertAt(ns, k, x)[j]) == InsertAt(c, k - 1, key(x))[j - 1]
  {
    forall j | 1 <= j < |ns| ensures key(InsertAt(ns, k, x)[j]) == InsertAt(c, k - 1, key(x))[j - 1] {
      if j < k {
        assert InsertAt(ns, k, x)[j] == ns[j] && InsertAt(c, k - 1, key(x))[j - 1] == c[j - 1];
      } else if j > k {
        assert InsertAt(ns, k, x)[j] == ns[j - 1] && InsertAt(c, k - 1, key(x))[j - 1] == c[j - 2];
      }
    }
  }

  /** In a chain without repeats, the element after the first is the last
      exactly when nothing lies between them. */
  lemma DistinctEnds<T>(ns: seq<T>, h: T, m: seq<T>, t: T)
    requires Distinct(ns) && ns == [h] + m + [t]
    ensures ns[1] == t <==> m == []
  {
    if m != [] {
      assert ns[1] == m[0] && ns[|ns| - 1] == t;
    }
  }

  /** In a sequence without repeats, removing a position removes that
      element and nothing else. */
  lemma RemoveAtDistinct<T>(ns: seq<T>, k: int)
    requires Distinct(ns) && 0 <= k < |ns|
    ensures ns[k] !in RemoveAt(ns, k)
    ensures forall y :: y in RemoveAt(ns, k) ==> y in ns
  {
    forall y | y in RemoveAt(ns, k) ensures y != ns[k] && y in ns {
      var j :| 0 <= j < |RemoveAt(ns, k)| && RemoveAt(ns, k)[j] == y;
      if j < k {
        assert y == ns[j];
      } else {
        assert y == ns[j + 1];
      }
    }
  }

  /** No element occurs twice. */
  ghost predicate Distinct<T>(s: seq<T>)
  {
    forall i, j :: 0 <= i < j < |s| ==> s[i] != s[j]
  }

  lemma AppendAssoc<T>(x: seq<T>, y: seq<T>, z: seq<T>)
    ensures x + (y + z) == (x + y) + z
  {
  }

  /** The elements of `s` whose key is `v`, in their order in `s`. */
  function Filter<T>(s: seq<T>, key: T -> int, v: int): (r: seq<T>)
    ensures |r| <= |s|
  {
    if s == [] then []
    else (if key(s[0]) == v then [s[0]] else []) + Filter(s[1..], key, v)
  }

  /** `r` is `a` and `b` shuffled together, each keeping its own order. */
  ghost predicate Interleaving<T>(r: seq<T>, a: seq<T>, b: seq<T>)
    decreases |r|
  {
    if r == [] then a == [] && b == []
    else
      || (a != [] && r[0] == a[0] && Interleaving(r[1..], a[1..], b))
      || (b != [] && r[0] == b[0] && Interleaving(r[1..], a, b[1..]))
  }

  lemma {:induction false} InterleavingMultiset<T>(r: seq<T>, a: seq<T>, b: seq<T>)
    requires Interleaving(r, a, b)
    ensures multiset(r) == multiset(a) + multiset(b)
    decreases |r|
  {
    if r != [] {
      assert r == [r[0]] + r[1..];
      if a != [] && r[0] == a[0] && Interleaving(r[1..], a[1..], b) {
        InterleavingMultiset(r[1..], a[1..], b);
        assert a == [a[0]] + a[1..];
      } else {
        InterleavingMultiset(r[1..], a, b[1..]);
        assert b == [b[0]] + b[1..];
      }
    }
  }

  /** A sequence interleaved with nothing is itself. */
  lemma {:induction false} InterleavingLeft<T>(a: seq<T>)
    ensures Interleaving(a, a, [])
    ensures Interleaving(a, [], a)
    decreases |a|
  {
    if a != [] {
      InterleavingLeft(a[1..]);
    }
  }

  /** Prepending an element whose key is no larger than any key in `s` keeps it sorted. */
  lemma SortedCons<T>(x: T, s: seq<T>, key: T -> int)
    requires SortedBy(s, key)
    requires forall y :: y in s ==> key(x) <= key(y)
    ensures SortedBy([x] + s, key)
  {
    var t := [x] + s;
    forall i, j | 0 <= i < j < |t| ensures key(t[i]) <= key(t[j]) {
      if i == 0 {
        assert t[j] == s[j - 1];
        assert t[j] in s;
      } else {
        assert t[i] == s[i - 1] && t[j] == s[j - 1];
      }
    }
  }

  /** The tail of a sorted sequence is sorted, and no key in it is below the head's. */
  lemma SortedTail<T>(s: seq<T>, key: T -> int)
    requires s != [] && SortedBy(s, key)
    ensures SortedBy(s[1..], key)
    ensures forall y :: y in s ==> key(s[0]) <= key(y)
  {
    forall y | y in s ensures key(s[0]) <= key(y) {
      var j :| 0 <= j < |s| && s[j] == y;
      if j > 0 {
        assert key(s[0]) <= key(s[j]);
      }
    }
  }
}
