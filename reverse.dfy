/** The abstract meaning of `list::reverse`: the chain read backwards. */
module ReverseSpec {

  function Reversed<T>(s: seq<T>): seq<T>
    decreases |s|
  {
    if |s| == 0 then [] else [s[|s| - 1]] + Reversed(s[..|s| - 1])
  }

  /** Position `k` of the reversal holds the element `k` places from the end. */
  lemma {:induction false} ReversedAt<T>(s: seq<T>)
    ensures |Reversed(s)| == |s|
    ensures forall k :: 0 <= k < |s| ==> Reversed(s)[k] == s[|s| - 1 - k]
    decreases |s|
  {
    if |s| > 0 {
      var init := s[..|s| - 1];
      ReversedAt(init);
      forall k | 0 < k < |s| ensures Reversed(s)[k] == s[|s| - 1 - k] {
        assert Reversed(s)[k] == Reversed(init)[k - 1];
      }
    }
  }

  /** Reversing twice restores the original order. */
  lemma ReversedTwice<T>(s: seq<T>)
    ensures Reversed(Reversed(s)) == s
  {
    ReversedAt(s);
    ReversedAt(Reversed(s));
  }

  /** Sequences of length 0 or 1 are their own reversal. */
  lemma ReversedShort<T>(s: seq<T>)
    requires |s| <= 1
    ensures Reversed(s) == s
  {
    if |s| == 1 {
      assert Reversed(s) == [s[0]] + Reversed(s[..0]);
    }
  }

  /** Reversal rearranges and neither adds nor drops elements. */
  lemma {:induction false} ReversedMultiset<T>(s: seq<T>)
    ensures multiset(Reversed(s)) == multiset(s)
    decreases |s|
  {
    if |s| > 0 {
      ReversedMultiset(s[..|s| - 1]);
      assert s == s[..|s| - 1] + [s[|s| - 1]];
    }
  }
}
