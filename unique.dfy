/** The abstract meaning of `list::unique`: scanning left to right, the
    element after the current one is dropped while its key equals the
    current one's; otherwise the scan moves on. The first element of every
    run of equal keys stays. Generic with a key so that it describes both
    the values and the node chain. */
module UniqueSpec {
  import opened Sequences

  function DedupBy<T>(s: seq<T>, key: T -> int): seq<T>
    decreases |s|
  {
    if |s| <= 1 then s
    else if key(s[0]) == key(s[1]) then DedupBy([s[0]] + s[2..], key)
    else [s[0]] + DedupBy(s[1..], key)
  }

  /** The scan of `unique()` ends with a single node left to look at: the
      chain between its two ends is then the promised result, and the
      values `c` it holds are the thinned-out input values `c0`. */
  lemma DedupScanDone<T>(ns: seq<T>, c: seq<int>, done: seq<T>, todo: seq<T>, d0: seq<T>, c0: seq<int>, key: T -> int)
    requires |ns| >= 2 && ns == [ns[0]] + done + todo + [ns[|ns| - 1]]
    requires |c| == |ns| - 2 && forall j :: 1 <= j < |ns| - 1 ==> key(ns[j]) == c[j - 1]
    requires |todo| == 1 && done + DedupBy(todo, key) == DedupBy(d0, key) && Keys(d0, key) == c0
    ensures ns[1..|ns| - 1] == DedupBy(d0, key)
    ensures c == DedupBy(c0, Id)
  {
    var s := ns[1..|ns| - 1];
    assert s == done + todo;
    forall j | 0 <= j < |s| ensures key(s[j]) == c[j] {
      assert s[j] == ns[j + 1];
    }
    DedupValues(s, c, d0, c0, key);
  }

  /** What the node-level result means for the values: when `c` lists the
      keys of `s` and `s` is the result for `d0`, whose keys are `c0`, then
      `c` is the result for `c0`. */
  lemma DedupValues<T>(s: seq<T>, c: seq<int>, d0: seq<T>, c0: seq<int>, key: T -> int)
    requires |c| == |s| && forall j :: 0 <= j < |s| ==> key(s[j]) == c[j]
    requires s == DedupBy(d0, key) && Keys(d0, key) == c0
    ensures c == DedupBy(c0, Id)
  {
    DedupKeys(d0, key);
    assert c == Keys(s, key);
  }

  /** No two neighbours share a key. */
  ghost predicate NoAdjacentRepeats<T>(s: seq<T>, key: T -> int)
  {
    forall i :: 0 <= i < |s| - 1 ==> key(s[i]) != key(s[i + 1])
  }

  /** Strictly ascending by key: every key occurs at most once. */
  ghost predicate StrictlySortedBy<T>(s: seq<T>, key: T -> int)
  {
    forall i, j :: 0 <= i < j < |s| ==> key(s[i]) < key(s[j])
  }

  /** The result keeps the first element, keeps only elements of the input,
      and has no two neighbours with the same key. */
  lemma {:induction false} DedupShape<T>(s: seq<T>, key: T -> int)
    ensures |DedupBy(s, key)| <= |s|
    ensures s != [] ==> DedupBy(s, key) != [] && DedupBy(s, key)[0] == s[0]
    ensures forall x :: x in DedupBy(s, key) ==> x in s
    ensures NoAdjacentRepeats(DedupBy(s, key), key)
    decreases |s|
  {
    if |s| > 1 {
      if key(s[0]) == key(s[1]) {
        var s' := [s[0]] + s[2..];
        DedupShape(s', key);
        forall x | x in s' ensures x in s {
          if x != s[0] {
            var j :| 0 <= j < |s'| && s'[j] == x;
            assert s[j + 1] == x;
          }
        }
      } else {
        var t := DedupBy(s[1..], key);
        DedupShape(s[1..], key);
        assert DedupBy(s, key) == [s[0]] + t;
        forall x | x in t ensures x in s {
          var j :| 0 <= j < |s[1..]| && s[1..][j] == x;
          assert s[j + 1] == x;
        }
      }
    }
  }

  /** Every key of the input survives: only repeats are dropped. */
  lemma {:induction false} DedupKeepsKeys<T>(s: seq<T>, key: T -> int)
    ensures forall x :: x in s ==> key(x) in Keys(DedupBy(s, key), key)
    decreases |s|
  {
    if |s| > 1 {
      if key(s[0]) == key(s[1]) {
        var s' := [s[0]] + s[2..];
        DedupKeepsKeys(s', key);
        DedupShape(s', key);
        forall x | x in s ensures key(x) in Keys(DedupBy(s, key), key) {
          var j :| 0 <= j < |s| && s[j] == x;
          if j == 0 || j == 1 {
            assert Keys(DedupBy(s', key), key)[0] == key(s[0]);
          } else {
            assert s'[j - 1] == x;
          }
        }
      } else {
        var t := DedupBy(s[1..], key);
        DedupKeepsKeys(s[1..], key);
        assert DedupBy(s, key) == [s[0]] + t;
        forall x | x in s ensures key(x) in Keys(DedupBy(s, key), key) {
          var r := DedupBy(s, key);
          if x == s[0] {
            assert Keys(r, key)[0] == key(x);
          } else {
            assert x in s[1..];
            var k :| 0 <= k < |Keys(t, key)| && Keys(t, key)[k] == key(x);
            assert Keys(r, key)[k + 1] == key(x);
          }
        }
      }
    }
  }

  /** The elements of `s` after its first one whose key differs from that
      of the element just before them: the heads of every run but the first. */
  function Changes<T>(s: seq<T>, key: T -> int): seq<T>
    decreases |s|
  {
    if |s| <= 1 then []
    else (if key(s[1]) != key(s[0]) then [s[1]] else []) + Changes(s[1..], key)
  }

  /** `Changes` looks at the first element through its key only. */
  lemma ChangesHeadKey<T>(x: T, y: T, t: seq<T>, key: T -> int)
    requires key(x) == key(y)
    ensures Changes([x] + t, key) == Changes([y] + t, key)
  {
    if t != [] {
      assert ([x] + t)[1..] == t && ([y] + t)[1..] == t;
    }
  }

  /** Only the first element of each group of equal neighbours is left: the
      result is exactly the head of every run of equal keys, in order. */
  lemma {:induction false} DedupIsRunHeads<T>(s: seq<T>, key: T -> int)
    ensures DedupBy(s, key) == if s == [] then [] else [s[0]] + Changes(s, key)
    decreases |s|
  {
    if |s| > 1 {
      if key(s[0]) == key(s[1]) {
        var s' := [s[0]] + s[2..];
        DedupIsRunHeads(s', key);
        assert s[1..] == [s[1]] + s[2..];
        ChangesHeadKey(s[0], s[1], s[2..], key);
        assert Changes(s, key) == Changes(s[1..], key);
      } else {
        DedupIsRunHeads(s[1..], key);
        assert s[1..][0] == s[1];
        assert Changes(s, key) == [s[1]] + Changes(s[1..], key);
      }
    }
  }

  /** A sequence without neighbouring repeats is left as it is. */
  lemma {:induction false} DedupFixpoint<T>(s: seq<T>, key: T -> int)
    requires NoAdjacentRepeats(s, key)
    ensures DedupBy(s, key) == s
    decreases |s|
  {
    if |s| > 1 {
      assert key(s[0]) != key(s[1]);
      assert NoAdjacentRepeats(s[1..], key) by {
        forall i | 0 <= i < |s[1..]| - 1 ensures key(s[1..][i]) != key(s[1..][i + 1]) {
          assert s[1..][i] == s[i + 1] && s[1..][i + 1] == s[i + 2];
        }
      }
      DedupFixpoint(s[1..], key);
    }
  }

  /** Removing repeats twice removes nothing more. */
  lemma DedupIdempotent<T>(s: seq<T>, key: T -> int)
    ensures DedupBy(DedupBy(s, key), key) == DedupBy(s, key)
  {
    DedupShape(s, key);
    DedupFixpoint(DedupBy(s, key), key);
  }

  /** On a sorted input the removal is complete: every key is left exactly
      once, since it is left at most once and every key of the input survives. */
  lemma {:induction false} DedupSorted<T>(s: seq<T>, key: T -> int)
    requires SortedBy(s, key)
    ensures StrictlySortedBy(DedupBy(s, key), key)
    ensures forall x :: x in s ==> key(x) in Keys(DedupBy(s, key), key)
    decreases |s|
  {
    DedupKeepsKeys(s, key);
    if |s| > 1 {
      SortedTail(s, key);
      if key(s[0]) == key(s[1]) {
        var s' := [s[0]] + s[2..];
        assert SortedBy(s', key) by {
          SortedTail(s[1..], key);
          assert s[2..] == s[1..][1..];
          forall y | y in s[2..] ensures key(s[0]) <= key(y) {
            assert y in s;
          }
          SortedCons(s[0], s[2..], key);
        }
        DedupSorted(s', key);
      } else {
        var t := DedupBy(s[1..], key);
        DedupSorted(s[1..], key);
        DedupShape(s[1..], key);
        assert DedupBy(s, key) == [s[0]] + t;
        var r := [s[0]] + t;
        forall i, j | 0 <= i < j < |r| ensures key(r[i]) < key(r[j]) {
          if i == 0 {
            assert r[j] == t[j - 1];
            assert t[j - 1] in s[1..];
            assert key(s[0]) <= key(s[1]);
            SortedTail(s[1..], key);
          } else {
            assert r[i] == t[i - 1] && r[j] == t[j - 1];
          }
        }
      }
    }
  }

  /** Removing repeats among items and then reading their keys is removing repeats among the keys. */
  lemma {:induction false} DedupKeys<T>(s: seq<T>, key: T -> int)
    ensures Keys(DedupBy(s, key), key) == DedupBy(Keys(s, key), Id)
    decreases |s|
  {
    var ks := Keys(s, key);
    if |s| > 1 {
      if key(s[0]) == key(s[1]) {
        var s' := [s[0]] + s[2..];
        DedupKeys(s', key);
        assert Keys(s', key) == [ks[0]] + ks[2..];
      } else {
        DedupKeys(s[1..], key);
        KeysCons(s[0], DedupBy(s[1..], key), key);
        assert Keys(s[1..], key) == ks[1..];
      }
    }
  }

  /** Example: only neighbouring repeats collapse, the final 1 stays. */
  lemma DedupExample()
    ensures DedupBy([1, 1, 2, 2, 2, 3, 1], Id) == [1, 2, 3, 1]
  {
    assert DedupBy([3, 1], Id) == [3] + DedupBy([1], Id);
    assert DedupBy([2, 3, 1], Id) == [2] + DedupBy([3, 1], Id);
    assert [2] + [2, 2, 3, 1][2..] == [2, 3, 1];
    assert DedupBy([2, 2, 3, 1], Id) == DedupBy([2, 3, 1], Id);
    assert [2] + [2, 2, 2, 3, 1][2..] == [2, 2, 3, 1];
    assert DedupBy([2, 2, 2, 3, 1], Id) == DedupBy([2, 2, 3, 1], Id);
    assert DedupBy([1, 2, 2, 2, 3, 1], Id) == [1] + DedupBy([2, 2, 2, 3, 1], Id);
    assert [1] + [1, 1, 2, 2, 2, 3, 1][2..] == [1, 2, 2, 2, 3, 1];
    assert DedupBy([1, 1, 2, 2, 2, 3, 1], Id) == DedupBy([1, 2, 2, 2, 3, 1], Id);
  }
}
