/** The fitness evaluator of the stochastic search. A full 0-based placement is scored
    by the number of diagonal collisions: the two diagonal identifiers
    `c[i] - i` and `(size + 1) - c[i] - i` are sorted and adjacent equal pairs are
    counted from sorted index 2 on, so the pair at sorted positions 0/1 is never
    inspected. */
module FitnessEvaluator {
  import opened Counting
  import opened Constraints

  // ----- sorting (the program's `sorted`) -----

  ghost predicate Ascending(s: seq<int>)
  {
    forall i, j :: 0 <= i < j < |s| ==> s[i] <= s[j]
  }

  lemma PrependAscending(h: int, t: seq<int>)
    requires Ascending(t)
    requires forall i :: 0 <= i < |t| ==> h <= t[i]
    ensures Ascending([h] + t)
  {
  }

  /** Insertion of x into an ascending sequence. */
  function Insert(x: int, s: seq<int>): (r: seq<int>)
    requires Ascending(s)
    ensures Ascending(r) && multiset(r) == multiset(s) + multiset{x} && |r| == |s| + 1
    ensures forall i :: 0 <= i < |r| ==> r[i] == x || r[i] in s
  {
    if |s| == 0 || x <= s[0] then
      PrependAscending(x, s);
      [x] + s
    else
      var t := Insert(x, s[1..]);
      assert s == [s[0]] + s[1..];
      PrependAscending(s[0], t);
      [s[0]] + t
  }

  /** The ascending permutation of `s`. */
  function SortAscending(s: seq<int>): (r: seq<int>)
    ensures Ascending(r) && multiset(r) == multiset(s) && |r| == |s|
  {
    if |s| == 0 then []
    else
      assert s == [s[0]] + s[1..];
      Insert(s[0], SortAscending(s[1..]))
  }

  // ----- fitness -----

  /** The list f1 of the program: identifiers of the diagonals of slope one. */
  function Diag1(c: seq<int>): (r: seq<int>)
    ensures |r| == |c| && forall i :: 0 <= i < |c| ==> r[i] == c[i] - i
  {
    seq(|c|, i requires 0 <= i < |c| => c[i] - i)
  }

  /** The list f2 of the program: identifiers of the diagonals of slope minus one. */
  function Diag2(c: seq<int>): (r: seq<int>)
    ensures |r| == |c| && forall i :: 0 <= i < |c| ==> r[i] == (1 + |c|) - c[i] - i
  {
    seq(|c|, i requires 0 <= i < |c| => (1 + |c|) - c[i] - i)
  }

  /** Number of indices j in `from .. |s| - 1` with `s[j] == s[j - 1]`; at most one per index. */
  function AdjacentEqualFrom(s: seq<int>, from: nat): (r: nat)
    requires from >= 1
    ensures from <= |s| ==> r <= |s| - from
    ensures from > |s| ==> r == 0
    decreases |s| - from
  {
    if from >= |s| then 0
    else (if s[from] == s[from - 1] then 1 else 0) + AdjacentEqualFrom(s, from + 1)
  }

  /** fitness: collisions counted in both sorted identifier lists from index 2 on. */
  function Fitness(c: seq<int>): (r: nat)
  {
    AdjacentEqualFrom(SortAscending(Diag1(c)), 2) + AdjacentEqualFrom(SortAscending(Diag2(c)), 2)
  }

  /** Fitness is a count of at most one collision per sorted index 2 .. size - 1 in each list. */
  lemma FitnessBounds(c: seq<int>)
    ensures |c| >= 2 ==> Fitness(c) <= 2 * (|c| - 2)
    ensures |c| <= 2 ==> Fitness(c) == 0
  {
  }

  /** The count with the comparison started at index 1 (every adjacent pair inspected). */
  function FullCollisionCount(c: seq<int>): (r: nat)
  {
    AdjacentEqualFrom(SortAscending(Diag1(c)), 1) + AdjacentEqualFrom(SortAscending(Diag2(c)), 1)
  }

  /** Two columns share a diagonal. */
  ghost predicate DiagonalClash(c: seq<int>)
  {
    exists i, j :: 0 <= i < j < |c| && (c[i] - c[j] == i - j || c[i] - c[j] == j - i)
  }

  lemma {:induction false} AdjacentEqualZeroIff(s: seq<int>, from: nat)
    requires from >= 1
    ensures AdjacentEqualFrom(s, from) == 0 <==> forall j :: from <= j < |s| ==> s[j] != s[j - 1]
    decreases |s| - from
  {
    if from < |s| {
      AdjacentEqualZeroIff(s, from + 1);
    }
  }

  lemma RepeatCountsTwice(s: seq<int>, i: int, j: int)
    requires 0 <= i < j < |s| && s[i] == s[j]
    ensures multiset(s)[s[i]] >= 2
  {
    assert s == s[..j] + [s[j]] + s[j + 1..];
    assert s[i] in multiset(s[..j]);
    assert multiset(s) == multiset(s[..j]) + multiset{s[j]} + multiset(s[j + 1..]);
  }

  lemma {:induction false} NoRepeatCountsOnce(s: seq<int>, x: int)
    requires Distinct(s)
    ensures multiset(s)[x] <= 1
  {
    if |s| > 0 {
      var init := s[..|s| - 1];
      assert s == init + [s[|s| - 1]];
      assert Distinct(init);
      NoRepeatCountsOnce(init, x);
      assert s[|s| - 1] !in multiset(init);
      assert multiset(s) == multiset(init) + multiset{s[|s| - 1]};
    }
  }

  /** Having a repeated value is a property of the multiset of a sequence. */
  lemma RepeatPermutation(s: seq<int>, t: seq<int>)
    requires multiset(s) == multiset(t)
    ensures Distinct(s) <==> Distinct(t)
  {
    if !Distinct(s) && Distinct(t) {
      var i, j :| 0 <= i < j < |s| && s[i] == s[j];
      RepeatCountsTwice(s, i, j);
      NoRepeatCountsOnce(t, s[i]);
    }
    if !Distinct(t) && Distinct(s) {
      var i, j :| 0 <= i < j < |t| && t[i] == t[j];
      RepeatCountsTwice(t, i, j);
      NoRepeatCountsOnce(s, t[i]);
    }
  }

  /** In an ascending sequence a repeated value shows up as an equal adjacent pair. */
  lemma AscendingRepeatIff(s: seq<int>)
    requires Ascending(s)
    ensures !Distinct(s) <==> exists j :: 1 <= j < |s| && s[j] == s[j - 1]
  {
    if !Distinct(s) {
      var i, j :| 0 <= i < j < |s| && s[i] == s[j];
      assert s[i] <= s[i + 1] <= s[j];
      assert s[i + 1] == s[i + 1 - 1];
    }
    if exists j :: 1 <= j < |s| && s[j] == s[j - 1] {
      var j :| 1 <= j < |s| && s[j] == s[j - 1];
      assert s[j - 1] == s[j];
    }
  }

  /** The collision count over every adjacent pair of sorted identifiers is zero
      exactly when no identifier repeats. */
  lemma SortedCountZeroIff(s: seq<int>)
    ensures AdjacentEqualFrom(SortAscending(s), 1) == 0 <==> Distinct(s)
  {
    var t := SortAscending(s);
    AdjacentEqualZeroIff(t, 1);
    AscendingRepeatIff(t);
    RepeatPermutation(s, t);
  }

  /** Slope-one identifiers repeat exactly when two queens share such a diagonal. */
  lemma Diag1RepeatIff(c: seq<int>)
    ensures !Distinct(Diag1(c)) <==> exists i, j :: 0 <= i < j < |c| && c[i] - c[j] == i - j
  {
    var d := Diag1(c);
    if !Distinct(d) {
      var i, j :| 0 <= i < j < |d| && d[i] == d[j];
      assert c[i] - c[j] == i - j;
    }
    if exists i, j :: 0 <= i < j < |c| && c[i] - c[j] == i - j {
      var i, j :| 0 <= i < j < |c| && c[i] - c[j] == i - j;
      assert d[i] == d[j];
    }
  }

  /** Slope-minus-one identifiers repeat exactly when two queens share such a diagonal. */
  lemma Diag2RepeatIff(c: seq<int>)
    ensures !Distinct(Diag2(c)) <==> exists i, j :: 0 <= i < j < |c| && c[i] - c[j] == j - i
  {
    var d := Diag2(c);
    if !Distinct(d) {
      var i, j :| 0 <= i < j < |d| && d[i] == d[j];
      assert c[i] - c[j] == j - i;
    }
    if exists i, j :: 0 <= i < j < |c| && c[i] - c[j] == j - i {
      var i, j :| 0 <= i < j < |c| && c[i] - c[j] == j - i;
      assert d[i] == d[j];
    }
  }

  /** With every adjacent pair inspected, the count is zero exactly when no two queens
      share a diagonal. */
  lemma FullCountZeroIff(c: seq<int>)
    ensures FullCollisionCount(c) == 0 <==> !DiagonalClash(c)
  {
    SortedCountZeroIff(Diag1(c));
    SortedCountZeroIff(Diag2(c));
    Diag1RepeatIff(c);
    Diag2RepeatIff(c);
  }

  /** Starting at index 2 loses at most the pair at sorted positions 0/1 of each list. */
  lemma FitnessMissesFirstPairOnly(c: seq<int>)
    ensures Fitness(c) <= FullCollisionCount(c) <= Fitness(c) + 2
  {
  }

  /** A placement on which no two queens attack each other has fitness 0. */
  lemma FitnessOfSolution(c: seq<int>)
    requires NoAttacks(c)
    ensures Fitness(c) == 0
  {
    FullCountZeroIff(c);
    assert !DiagonalClash(c) by {
      forall i, j | 0 <= i < j < |c|
        ensures !(c[i] - c[j] == i - j || c[i] - c[j] == j - i)
      {
        assert !Attacks(c, i, j);
      }
    }
  }

  /** For a placement with one queen per row, full collision count zero means a solution. */
  lemma FullCountZeroIsSolution(c: seq<int>)
    requires Distinct(c)
    ensures FullCollisionCount(c) == 0 <==> NoAttacks(c)
  {
    FullCountZeroIff(c);
    if DiagonalClash(c) {
      var i, j :| 0 <= i < j < |c| && (c[i] - c[j] == i - j || c[i] - c[j] == j - i);
      assert Attacks(c, i, j);
    } else {
      forall i, j | 0 <= i < j < |c| ensures !Attacks(c, i, j) {
        if c[i] - c[j] == i - j || c[i] - c[j] == j - i {
          assert DiagonalClash(c);
        }
      }
    }
  }

  lemma RepeatCountsThrice(s: seq<int>, a: int, b: int, c: int)
    requires 0 <= a < b < c < |s| && s[a] == s[b] == s[c]
    ensures multiset(s)[s[a]] >= 3
  {
    assert s == s[..c] + [s[c]] + s[c + 1..];
    RepeatCountsTwice(s[..c], a, b);
    assert multiset(s) == multiset(s[..c]) + multiset{s[c]} + multiset(s[c + 1..]);
  }

  /** A value v that no repeated pair carries occurs at most once. */
  lemma {:induction false} UnrepeatedCountsOnce(s: seq<int>, v: int)
    requires forall i, j :: 0 <= i < j < |s| && s[i] == s[j] ==> s[i] != v
    ensures multiset(s)[v] <= 1
  {
    if |s| > 0 {
      var init := s[..|s| - 1];
      assert s == init + [s[|s| - 1]];
      UnrepeatedCountsOnce(init, v);
      if s[|s| - 1] == v {
        assert v !in multiset(init);
      }
      assert multiset(s) == multiset(init) + multiset{s[|s| - 1]};
    }
  }

  /** An ascending sequence whose least value m occurs exactly twice starts with m, m. */
  lemma AscendingMinimumPair(t: seq<int>, m: int)
    requires Ascending(t)
    requires forall i :: 0 <= i < |t| ==> m <= t[i]
    requires multiset(t)[m] == 2
    ensures |t| >= 2 && t[0] == m && t[1] == m
  {
    assert m in multiset(t);
    var k :| 0 <= k < |t| && t[k] == m;
    assert t[0] == m;
    if |t| < 2 || t[1] != m {
      forall i, j | 0 <= i < j < |t| && t[i] == t[j] ensures t[i] != m {
        assert t[1] <= t[j];
      }
      UnrepeatedCountsOnce(t, m);
    }
  }

  /** In an ascending sequence starting m, m where m occurs twice and every other value
      at most once, no two adjacent entries from index 2 on are equal. */
  lemma AscendingNoLaterPair(t: seq<int>, m: int)
    requires |t| >= 2 && t[0] == m && t[1] == m
    requires multiset(t)[m] == 2
    requires forall v :: v != m ==> multiset(t)[v] <= 1
    ensures forall j :: 2 <= j < |t| ==> t[j] != t[j - 1]
  {
    forall j | 2 <= j < |t| ensures t[j] != t[j - 1] {
      if t[j] == t[j - 1] {
        if t[j] == m {
          RepeatCountsThrice(t, 0, j - 1, j);
        } else {
          RepeatCountsTwice(t, j - 1, j);
        }
      }
    }
  }

  /** A collision only between sorted positions 0 and 1 is never counted: when the one
      repeated identifier is the smallest and occurs twice, the count from index 2 is 0
      while the count over every adjacent pair is 1. */
  lemma MinimumPairNotCounted(s: seq<int>, m: int)
    requires forall i :: 0 <= i < |s| ==> m <= s[i]
    requires multiset(s)[m] == 2
    requires forall i, j :: 0 <= i < j < |s| && s[i] == s[j] ==> s[i] == m
    ensures AdjacentEqualFrom(SortAscending(s), 2) == 0
    ensures AdjacentEqualFrom(SortAscending(s), 1) == 1
  {
    var t := SortAscending(s);
    forall i | 0 <= i < |t| ensures m <= t[i] {
      assert t[i] in multiset(s);
    }
    forall v | v != m ensures multiset(t)[v] <= 1 {
      UnrepeatedCountsOnce(s, v);
    }
    AscendingMinimumPair(t, m);
    AscendingNoLaterPair(t, m);
    AdjacentEqualZeroIff(t, 2);
  }

  /** A sequence of equal values: the count from index `from` is every remaining pair. */
  lemma {:induction false} ConstantCount(s: seq<int>, from: nat)
    requires 1 <= from <= |s|
    requires forall i :: 0 <= i < |s| ==> s[i] == s[0]
    ensures AdjacentEqualFrom(s, from) == |s| - from
    decreases |s| - from
  {
    if from < |s| {
      ConstantCount(s, from + 1);
    }
  }

  /** Sorting a sequence of equal values and counting from index 2 finds every pair but one. */
  lemma ConstantSortedCount(s: seq<int>)
    requires |s| >= 2
    requires forall i :: 0 <= i < |s| ==> s[i] == s[0]
    ensures AdjacentEqualFrom(SortAscending(s), 2) == |s| - 2
  {
    var t := SortAscending(s);
    forall i | 0 <= i < |t| ensures t[i] == s[0] {
      assert t[i] in multiset(s);
    }
    ConstantCount(t, 2);
  }

  /** With no repeated identifier nothing is counted from index 2 either. */
  lemma DistinctSortedCount(s: seq<int>)
    requires Distinct(s)
    ensures AdjacentEqualFrom(SortAscending(s), 2) == 0
  {
    SortedCountZeroIff(s);
  }

  /** A value found at index p and nowhere else occurs once. */
  lemma OccursOnceAt(s: seq<int>, p: int)
    requires 0 <= p < |s|
    requires forall i :: 0 <= i < |s| && i != p ==> s[i] != s[p]
    ensures multiset(s)[s[p]] == 1
  {
    assert s == s[..p] + [s[p]] + s[p + 1..];
    assert s[p] !in s[..p];
    assert s[p] !in s[p + 1..];
  }

  /** A value found at indices p and q and nowhere else occurs twice. */
  lemma OccursTwiceAt(s: seq<int>, p: int, q: int)
    requires 0 <= p < q < |s| && s[p] == s[q]
    requires forall i :: 0 <= i < |s| && i != p && i != q ==> s[i] != s[p]
    ensures multiset(s)[s[p]] == 2
  {
    assert s == s[..q] + [s[q]] + s[q + 1..];
    OccursOnceAt(s[..q], p);
    assert s[p] !in s[q + 1..];
  }

  lemma DiagonalIdentifiers(c: seq<int>)
    requires c == [0, 1, 2, 3, 4, 5, 6, 7]
    ensures Diag1(c) == [0, 0, 0, 0, 0, 0, 0, 0]
    ensures Diag2(c) == [9, 7, 5, 3, 1, -1, -3, -5]
  {
  }

  lemma DiagonalSlopeOne(c: seq<int>)
    requires c == [0, 1, 2, 3, 4, 5, 6, 7]
    ensures AdjacentEqualFrom(SortAscending(Diag1(c)), 2) == 6
  {
    DiagonalIdentifiers(c);
    ConstantSortedCount(Diag1(c));
  }

  lemma DiagonalSlopeMinusOne(c: seq<int>)
    requires c == [0, 1, 2, 3, 4, 5, 6, 7]
    ensures AdjacentEqualFrom(SortAscending(Diag2(c)), 2) == 0
  {
    DiagonalIdentifiers(c);
    assert Distinct(Diag2(c));
    DistinctSortedCount(Diag2(c));
  }

  /** Rows equal to columns: all slope-one identifiers are 0, giving 6 counted pairs;
      the slope-minus-one identifiers `9 - 2i` are distinct, giving none. */
  lemma FitnessOfDiagonal(c: seq<int>)
    requires c == [0, 1, 2, 3, 4, 5, 6, 7]
    ensures Fitness(c) == 6
  {
    DiagonalSlopeOne(c);
    DiagonalSlopeMinusOne(c);
  }

  /** The known solution [0,4,7,5,2,6,1,3] has fitness 0. */
  lemma FitnessOfKnownSolution(c: seq<int>)
    requires c == [0, 4, 7, 5, 2, 6, 1, 3]
    ensures Fitness(c) == 0
  {
    FitnessOfSolution(c);
  }

  lemma BlindSpotIdentifiers(c: seq<int>)
    requires c == [0, 3, 6, 4, 7, 1, 5, 2]
    ensures Diag1(c) == [0, 2, 4, 1, 3, -4, -1, -5]
    ensures Diag2(c) == [9, 5, 1, 2, -2, 3, -2, 0]
  {
  }

  lemma BlindSpotSlopeOne(c: seq<int>)
    requires c == [0, 3, 6, 4, 7, 1, 5, 2]
    ensures AdjacentEqualFrom(SortAscending(Diag1(c)), 2) == 0
    ensures AdjacentEqualFrom(SortAscending(Diag1(c)), 1) == 0
  {
    BlindSpotIdentifiers(c);
    assert Distinct(Diag1(c));
    SortedCountZeroIff(Diag1(c));
    DistinctSortedCount(Diag1(c));
  }

  /** Among the slope-minus-one identifiers of the blind spot only the least, -2, repeats. */
  lemma BlindSpotRepeat(d: seq<int>)
    requires d == [9, 5, 1, 2, -2, 3, -2, 0]
    ensures forall i :: 0 <= i < |d| ==> -2 <= d[i]
    ensures multiset(d)[-2] == 2
    ensures forall i, j :: 0 <= i < j < |d| && d[i] == d[j] ==> d[i] == -2
  {
    OccursTwiceAt(d, 4, 6);
  }

  lemma BlindSpotSlopeMinusOne(c: seq<int>)
    requires c == [0, 3, 6, 4, 7, 1, 5, 2]
    ensures AdjacentEqualFrom(SortAscending(Diag2(c)), 2) == 0
    ensures AdjacentEqualFrom(SortAscending(Diag2(c)), 1) == 1
  {
    BlindSpotIdentifiers(c);
    var d := Diag2(c);
    BlindSpotRepeat(d);
    MinimumPairNotCounted(d, -2);
  }

  /** The blind spot of starting at index 2: in [0,3,6,4,7,1,5,2] the queens of columns
      4 and 6 share a diagonal, yet the fitness is 0, because their identifier is the
      smallest one and sits at sorted positions 0 and 1. */
  lemma FitnessBlindSpot(c: seq<int>)
    requires c == [0, 3, 6, 4, 7, 1, 5, 2]
    ensures Fitness(c) == 0 && Attacks(c, 4, 6)
  {
    assert c[4] == 7 && c[6] == 5;
    BlindSpotSlopeOne(c);
    BlindSpotSlopeMinusOne(c);
  }

  /** Counting from index 1 instead sees the collision of the blind spot. */
  lemma FullCountSeesBlindSpot(c: seq<int>)
    requires c == [0, 3, 6, 4, 7, 1, 5, 2]
    ensures FullCollisionCount(c) == 1
  {
    BlindSpotSlopeOne(c);
    BlindSpotSlopeMinusOne(c);
  }
}
