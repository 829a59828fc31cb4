/** Reversing a list in place by swapping its ends. */
module Sequences {
  function Reversed<T>(s: seq<T>): seq<T> {
    if s == [] then [] else Reversed(s[1..]) + [s[0]]
  }

  lemma {:induction false} ReversedPush<T>(s: seq<T>, i: T)
    ensures Reversed(s + [i]) == [i] + Reversed(s)
  {
    if s == [] {
      assert s + [i] == [i];
    } else {
      assert (s + [i])[1..] == s[1..] + [i];
      ReversedPush(s[1..], i);
    }
  }

  lemma {:induction false} ReversedAt<T>(s: seq<T>)
    ensures |Reversed(s)| == |s|
    ensures forall k | 0 <= k < |s| :: Reversed(s)[k] == s[|s| - 1 - k]
  {
    if s != [] {
      ReversedAt(s[1..]);
    }
  }

  method Reverse<T>(s: seq<T>) returns (r: seq<T>)
    ensures r == Reversed(s)
  {
    r := s;
    var n := |s|;
    var i, j := 0, n - 1;
    while i < j
      invariant |r| == n && 0 <= i <= j + 2 && i + j == n - 1
      invariant forall k | 0 <= k < i :: r[k] == s[n - 1 - k] && r[n - 1 - k] == s[k]
      invariant forall k | i <= k <= j :: r[k] == s[k]
    {
      r := r[i := r[j]][j := r[i]];
      i, j := i + 1, j - 1;
    }
    ReversedAt(s);
    assert forall k | 0 <= k < n :: r[k] == s[n - 1 - k];
  }
}
