/** Counting facts about sequences of small integers: pigeonhole bounds used by
    the candidate generator, the MRV path and the LCV exhaustion lists. */
module Counting {

  /** No value occurs twice in `s`. */
  ghost predicate Distinct(s: seq<int>)
  {
    forall i, j :: 0 <= i < j < |s| ==> s[i] != s[j]
  }

  /** Every element of `s` lies in `lo .. lo + n - 1`. */
  ghost predicate InRange(s: seq<int>, lo: int, n: int)
  {
    forall i :: 0 <= i < |s| ==> lo <= s[i] < lo + n
  }

  ghost function Elements(s: seq<int>): (r: set<int>)
  {
    set x | x in s
  }

  lemma {:induction false} ElementsCard(s: seq<int>)
    ensures |Elements(s)| <= |s|
    ensures Distinct(s) ==> |Elements(s)| == |s|
  {
    if |s| > 0 {
      var init := s[..|s| - 1];
      ElementsCard(init);
      assert Elements(s) == Elements(init) + {s[|s| - 1]};
      if Distinct(s) {
        assert s[|s| - 1] !in Elements(init);
        assert Distinct(init);
      }
    } else {
      assert Elements(s) == {};
    }
  }

  /** The set `{lo, ..., lo + n - 1}`. */
  ghost function Interval(lo: int, n: nat): (r: set<int>)
    ensures forall x :: x in r <==> lo <= x < lo + n
    ensures |r| == n
  {
    if n == 0 then {} else Interval(lo, n - 1) + {lo + n - 1}
  }

  lemma SubsetCard(a: set<int>, b: set<int>)
    requires a <= b
    ensures |a| <= |b|
  {
    assert b == a + (b - a);
    assert a * (b - a) == {};
  }

  /** Pigeonhole: a repetition-free sequence drawn from n values has at most n elements. */
  lemma DistinctInRangeBound(s: seq<int>, lo: int, n: nat)
    requires Distinct(s) && InRange(s, lo, n)
    ensures |s| <= n
  {
    ElementsCard(s);
    SubsetCard(Elements(s), Interval(lo, n));
  }

  /** A repetition-free sequence of fewer than n values from `lo .. lo + n - 1` misses one of them. */
  lemma MissingValue(s: seq<int>, lo: int, n: nat) returns (x: int)
    requires Distinct(s) && InRange(s, lo, n) && |s| < n
    ensures lo <= x < lo + n && x !in s
  {
    if forall y :: lo <= y < lo + n ==> y in s {
      ElementsCard(s);
      SubsetCard(Interval(lo, n), Elements(s));
      assert false;
    }
    x :| lo <= x < lo + n && x !in s;
  }

  /** A repetition-free sequence from `lo .. lo + n - 1` that avoids one of those values
      has fewer than n elements. */
  lemma AvoidingBound(s: seq<int>, lo: int, n: nat, z: int)
    requires Distinct(s) && InRange(s, lo, n)
    requires lo <= z < lo + n && z !in s
    ensures |s| < n
  {
    ElementsCard(s);
    var others := Interval(lo, n) - {z};
    assert Interval(lo, n) == others + {z};
    SubsetCard(Elements(s), others);
  }
}
