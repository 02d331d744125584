/** The comparator-based array sort that `list::sort` hands its values to
    (`sjtu::sort` of algorithm.hpp). Only its promise matters to the list:
    the array ends up as the ascending permutation of what it held. That
    permutation is unique, so the sort is given here by one definite
    function, an insertion sort on sequences. */
module Algorithm {
  import opened Sequences

  /** `s` with `x` placed before the first element not below it. */
  function InsertSorted(x: int, s: seq<int>): seq<int>
    decreases |s|
  {
    if s == [] || x <= s[0] then [x] + s else [s[0]] + InsertSorted(x, s[1..])
  }

  function SortSeq(s: seq<int>): seq<int>
    decreases |s|
  {
    if s == [] then [] else InsertSorted(s[0], SortSeq(s[1..]))
  }

  lemma {:induction false} InsertSortedCorrect(x: int, s: seq<int>)
    requires Ascending(s)
    ensures Ascending(InsertSorted(x, s))
    ensures multiset(InsertSorted(x, s)) == multiset{x} + multiset(s)
    decreases |s|
  {
    if s != [] && x > s[0] {
      SortedTail(s, Id);
      InsertSortedCorrect(x, s[1..]);
      var t := InsertSorted(x, s[1..]);
      assert s == [s[0]] + s[1..];
      forall y | y in t ensures Id(s[0]) <= Id(y) {
        assert y in multiset(t);
      }
      SortedCons(s[0], t, Id);
    } else {
      forall y | y in s ensures Id(x) <= Id(y) {
        if s != [] {
          SortedTail(s, Id);
        }
      }
      SortedCons(x, s, Id);
    }
  }

  /** The result is ascending and a permutation of the input. */
  lemma {:induction false} SortSeqCorrect(s: seq<int>)
    ensures Ascending(SortSeq(s))
    ensures multiset(SortSeq(s)) == multiset(s)
    decreases |s|
  {
    if s != [] {
      SortSeqCorrect(s[1..]);
      InsertSortedCorrect(s[0], SortSeq(s[1..]));
      assert s == [s[0]] + s[1..];
    }
  }

  /** Any two ascending arrangements of the same values are equal, so every
      correct sort agrees with SortSeq. */
  lemma {:induction false} AscendingPermutationUnique(a: seq<int>, b: seq<int>)
    requires Ascending(a) && Ascending(b)
    requires multiset(a) == multiset(b)
    ensures a == b
    decreases |a|
  {
    if a != [] {
      assert |a| == |multiset(a)| == |b|;
      SortedTail(a, Id);
      SortedTail(b, Id);
      assert a[0] in multiset(b) && b[0] in multiset(a);
      assert a[0] == b[0] by {
        assert a[0] in b && b[0] in a;
        assert Id(b[0]) <= Id(a[0]) && Id(a[0]) <= Id(b[0]);
      }
      assert a == [a[0]] + a[1..] && b == [b[0]] + b[1..];
      assert multiset(a) == multiset{a[0]} + multiset(a[1..]);
      assert multiset(b) == multiset{b[0]} + multiset(b[1..]);
      assert multiset(a[1..]) == multiset(a) - multiset{a[0]};
      assert multiset(b[1..]) == multiset(b) - multiset{b[0]};
      AscendingPermutationUnique(a[1..], b[1..]);
    }
  }

  /** `sort()` on a sequence that is already in order leaves it as it is. */
  lemma SortSeqSorted(s: seq<int>)
    requires Ascending(s)
    ensures SortSeq(s) == s
  {
    SortSeqCorrect(s);
    AscendingPermutationUnique(SortSeq(s), s);
  }

  lemma SortExample()
    ensures SortSeq([3, 1, 2]) == [1, 2, 3]
  {
    assert InsertSorted(1, [2]) == [1, 2];
    assert SortSeq([1, 2]) == InsertSorted(1, SortSeq([2]));
    assert SortSeq([2]) == [2];
  }

  /** `sjtu::sort` over a whole array: afterwards the array holds the
      ascending arrangement of its old values. */
  method SortArray(a: array<int>)
    modifies a
    ensures a[..] == SortSeq(old(a[..]))
  {
    var sorted := SortSeq(a[..]);
    SortSeqCorrect(a[..]);
    assert |sorted| == |multiset(sorted)| == a.Length;
    forall i | 0 <= i < a.Length {
      a[i] := sorted[i];
    }
    assert a[..] == sorted;
  }
}
