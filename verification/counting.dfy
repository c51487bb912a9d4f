/** Counting positions: how many indices of a sequence give a value is the
    size of a set of indices, and dropping the head of the sequence shifts
    every remaining index down by one. */
module Counting {

  /** The indices of a tail `s[1..]` seen as indices of `s`. */
  ghost function Shift(a: set<int>): set<int> {
    set j | j in a :: j + 1
  }

  /** The members of `a` below `n`. */
  ghost function Below(a: set<int>, n: int): set<int> {
    set j | j in a && j < n
  }

  /** Shifting is one-to-one, so it keeps the number of indices; proved by
      adding the indices below `n` one bound at a time. */
  lemma {:induction false} ShiftBelowSize(a: set<int>, n: nat)
    requires forall j :: j in a ==> 0 <= j
    ensures |Shift(Below(a, n))| == |Below(a, n)|
    decreases n
  {
    if n == 0 {
      assert Below(a, n) == {};
      assert Shift(Below(a, n)) == {};
    } else {
      var k := n - 1;
      ShiftBelowSize(a, k);
      var extra: set<int> := if k in a then {k} else {};
      assert Below(a, n) == Below(a, k) + extra;
      forall j ensures j in Shift(Below(a, n)) <==> j in Shift(Below(a, k)) + (if k in a then {n} else {}) {
        assert j in Shift(Below(a, n)) <==> j - 1 in Below(a, n);
        assert j in Shift(Below(a, k)) <==> j - 1 in Below(a, k);
      }
      assert Shift(Below(a, n)) == Shift(Below(a, k)) + (if k in a then {n} else {});
      assert n !in Shift(Below(a, k)) by {
        assert n in Shift(Below(a, k)) <==> k in Below(a, k);
      }
    }
  }

  /** Shifting keeps the number of indices of any set of indices. */
  lemma ShiftSize(a: set<int>, n: nat)
    requires forall j :: j in a ==> 0 <= j < n
    ensures |Shift(a)| == |a|
  {
    ShiftBelowSize(a, n);
    assert Below(a, n) == a;
  }

  /** Splitting the indices at the head: index 0 when `atHead`, and the
      shifted indices `tail` of the rest. */
  lemma HeadPlusShift(atHead: bool, tail: set<int>, n: nat)
    requires forall j :: j in tail ==> 0 <= j < n
    ensures |(if atHead then {0} else {}) + Shift(tail)| == (if atHead then 1 else 0) + |tail|
  {
    ShiftSize(tail, n);
    assert 0 !in Shift(tail);
  }
}
