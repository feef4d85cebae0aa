/** The variable- and value-ordering heuristics of the backtracking search.
    `mrv` picks the unassigned column with the fewest legal rows (minimum remaining
    values); `lcv` picks the row for a column that leaves the most legal rows to the
    other unassigned columns (least constraining value). Both try rows by writing
    them into the vector and restore it afterwards; the methods do exactly that on an
    array, and the functions below are their specifications. */
module Heuristics {
  import opened Constraints

  /** The initial value of both `myk` and `min` in mrv: larger than any count and any index. */
  const Sentinel: int := 10

  // ----- counting legal rows -----

  /** Number of rows r in 1..m that are legal for column i once written into v. */
  function LegalCountUpTo(v: seq<int>, i: nat, m: nat): (r: nat)
    requires i < |v|
    ensures r <= m
  {
    if m == 0 then 0
    else LegalCountUpTo(v, i, m - 1) + (if IsLegal(i, v[i := m]) then 1 else 0)
  }

  /** Number of legal rows 1..|v| for column i, the other columns as in v. */
  function LegalCount(v: seq<int>, i: nat): (r: nat)
    requires i < |v|
    ensures r <= |v|
  {
    LegalCountUpTo(v, i, |v|)
  }

  /** The trial loop shared by mrv and lcv: writes every row 1..length into the unassigned
      column i, counts the legal ones and resets the column to 0. */
  method CountLegalRows(v: array<int>, i: int) returns (count: int)
    requires 0 <= i < v.Length && v[i] == 0
    modifies v
    ensures v[..] == old(v[..])
    ensures count == LegalCount(old(v[..]), i)
  {
    ghost var v0 := v[..];
    count := 0;
    var j := 1;
    while j <= v.Length
      invariant 1 <= j <= v.Length + 1
      invariant forall p :: 0 <= p < v.Length && p != i ==> v[p] == v0[p]
      invariant count == LegalCountUpTo(v0, i, j - 1)
    {
      v[i] := j;
      assert v[..] == v0[i := j];
      if IsLegal(i, v[..]) {
        count := count + 1;
      }
      j := j + 1;
    }
    v[i] := 0;
    assert v[..] == v0;
  }

  // ----- mrv -----

  /** The loop of mrv from column i on, with the current choice `myk` and its count `min`. */
  function MrvScan(v: seq<int>, i: nat, myk: int, min: int): (r: int)
    decreases |v| - i
  {
    if i >= |v| then myk
    else if v[i] == 0 && min > LegalCount(v, i) then MrvScan(v, i + 1, i, LegalCount(v, i))
    else MrvScan(v, i + 1, myk, min)
  }

  /** The column mrv returns for v. */
  function MrvChoice(v: seq<int>): (r: int)
  {
    MrvScan(v, 0, Sentinel, Sentinel)
  }

  /** What mrv knows after scanning columns 0..i-1: either no unassigned column yet, or
      `myk` is the first unassigned column of least count among them. */
  ghost predicate MrvSoFar(v: seq<int>, i: nat, myk: int, min: int)
    requires i <= |v|
  {
    (myk == Sentinel && min == Sentinel && forall j :: 0 <= j < i ==> v[j] != 0)
    || (0 <= myk < i && v[myk] == 0 && min == LegalCount(v, myk)
        && (forall j :: 0 <= j < i && v[j] == 0 ==> min <= LegalCount(v, j))
        && (forall j :: 0 <= j < myk && v[j] == 0 ==> min < LegalCount(v, j)))
  }

  lemma {:induction false} MrvScanSpec(v: seq<int>, i: nat, myk: int, min: int)
    requires |v| < Sentinel && i <= |v| && MrvSoFar(v, i, myk, min)
    ensures var r := MrvScan(v, i, myk, min);
      (r == Sentinel && forall j :: 0 <= j < |v| ==> v[j] != 0)
      || (0 <= r < |v| && v[r] == 0
          && (forall j :: 0 <= j < |v| && v[j] == 0 ==> LegalCount(v, r) <= LegalCount(v, j))
          && (forall j :: 0 <= j < r && v[j] == 0 ==> LegalCount(v, r) < LegalCount(v, j)))
    decreases |v| - i
  {
    if i < |v| {
      if v[i] == 0 && min > LegalCount(v, i) {
        MrvScanSpec(v, i + 1, i, LegalCount(v, i));
      } else {
        MrvScanSpec(v, i + 1, myk, min);
      }
    }
  }

  /** mrv returns the sentinel 10 exactly when every column is assigned; otherwise an
      unassigned column whose legal-row count is minimal, the first such one. */
  lemma MrvChoiceSpec(v: seq<int>)
    requires |v| < Sentinel
    ensures MrvChoice(v) == Sentinel <==> forall j :: 0 <= j < |v| ==> v[j] != 0
    ensures MrvChoice(v) != Sentinel ==>
      var k := MrvChoice(v);
      0 <= k < |v| && v[k] == 0
      && (forall j :: 0 <= j < |v| && v[j] == 0 ==> LegalCount(v, k) <= LegalCount(v, j))
      && (forall j :: 0 <= j < k && v[j] == 0 ==> LegalCount(v, k) < LegalCount(v, j))
  {
    MrvScanSpec(v, 0, Sentinel, Sentinel);
  }

  /** mrv: the vector is restored and the result is MrvChoice of it. */
  method Mrv(v: array<int>) returns (myk: int)
    modifies v
    ensures v[..] == old(v[..])
    ensures myk == MrvChoice(old(v[..]))
  {
    ghost var v0 := v[..];
    myk := Sentinel;
    var min := Sentinel;
    var i := 0;
    while i < v.Length
      invariant 0 <= i <= v.Length
      invariant v[..] == v0
      invariant MrvScan(v0, i, myk, min) == MrvChoice(v0)
    {
      if v[i] == 0 {
        var temp := CountLegalRows(v, i);
        if min > temp {
          min := temp;
          myk := i;
        }
      }
      i := i + 1;
    }
  }

  // ----- lcv -----

  /** Sum of the legal-row counts of the unassigned columns among 0..m-1 other than x. */
  function ScoreUpTo(w: seq<int>, x: int, m: nat): (r: nat)
    requires m <= |w|
    ensures r <= m * |w|
  {
    if m == 0 then 0
    else
      var here := if x != m - 1 && w[m - 1] == 0 then LegalCount(w, m - 1) else 0;
      MulStep(m, |w|);
      ScoreUpTo(w, x, m - 1) + here
  }

  lemma MulStep(m: int, n: int)
    ensures (m - 1) * n + n == m * n
  {
  }

  /** The lookahead score of row i for column x: with x set to i, the total number of
      legal rows left to every other unassigned column. */
  function Score(v: seq<int>, x: nat, i: int): (r: nat)
    requires x < |v|
  {
    ScoreUpTo(v[x := i], x, |v|)
  }

  /** Row i may be chosen for column x: a row number, legal at x, and not yet tried. */
  ghost predicate Candidate(v: seq<int>, x: nat, stack: seq<int>, i: int)
    requires x < |v|
  {
    1 <= i <= |v| && IsLegal(x, v[x := i]) && i !in stack
  }

  /** The loop of lcv over rows i..|v| with the current choice `myValue` and its score `lest`. */
  function LcvScan(v: seq<int>, x: nat, stack: seq<int>, i: nat, myValue: int, lest: int): (r: int)
    requires x < |v|
    decreases |v| + 1 - i
  {
    if i > |v| then myValue
    else if IsLegal(x, v[x := i]) && i !in stack && Score(v, x, i) > lest then
      LcvScan(v, x, stack, i + 1, i, Score(v, x, i))
    else LcvScan(v, x, stack, i + 1, myValue, lest)
  }

  /** The row lcv returns for column x, with the rows in `stack` already tried. */
  function LcvChoice(v: seq<int>, x: nat, stack: seq<int>): (r: int)
    requires x < |v|
  {
    var m := LcvScan(v, x, stack, 1, 0, 0);
    if m !in stack then m else 0
  }

  /** What lcv knows after trying rows 1..i-1. */
  ghost predicate LcvSoFar(v: seq<int>, x: nat, stack: seq<int>, i: nat, myValue: int, lest: int)
    requires x < |v|
  {
    (myValue == 0 && lest == 0
     && forall c :: 1 <= c < i && Candidate(v, x, stack, c) ==> Score(v, x, c) == 0)
    || (1 <= myValue < i && Candidate(v, x, stack, myValue)
        && lest == Score(v, x, myValue) && lest > 0
        && (forall c :: 1 <= c < i && Candidate(v, x, stack, c) ==> Score(v, x, c) <= lest)
        && (forall c :: 1 <= c < myValue && Candidate(v, x, stack, c) ==> Score(v, x, c) < lest))
  }

  lemma {:induction false} LcvScanSpec(v: seq<int>, x: nat, stack: seq<int>, i: nat, myValue: int, lest: int)
    requires x < |v| && 1 <= i <= |v| + 1 && LcvSoFar(v, x, stack, i, myValue, lest)
    ensures var m := LcvScan(v, x, stack, i, myValue, lest);
      (m == 0 && forall c :: Candidate(v, x, stack, c) ==> Score(v, x, c) == 0)
      || (Candidate(v, x, stack, m) && Score(v, x, m) > 0
          && (forall c :: Candidate(v, x, stack, c) ==> Score(v, x, c) <= Score(v, x, m))
          && (forall c :: 1 <= c < m && Candidate(v, x, stack, c) ==> Score(v, x, c) < Score(v, x, m)))
    decreases |v| + 1 - i
  {
    if i <= |v| {
      if IsLegal(x, v[x := i]) && i !in stack && Score(v, x, i) > lest {
        LcvScanSpec(v, x, stack, i + 1, i, Score(v, x, i));
      } else {
        LcvScanSpec(v, x, stack, i + 1, myValue, lest);
      }
    }
  }

  /** lcv returns 0 exactly when no untried legal row has a positive score; otherwise an
      untried row, legal at x, whose score is the greatest, the first such one. */
  lemma LcvChoiceSpec(v: seq<int>, x: nat, stack: seq<int>)
    requires x < |v|
    ensures var r := LcvChoice(v, x, stack);
      (r == 0 <==> forall c :: Candidate(v, x, stack, c) ==> Score(v, x, c) == 0)
      && (r != 0 ==>
            Candidate(v, x, stack, r)
            && (forall c :: Candidate(v, x, stack, c) ==> Score(v, x, c) <= Score(v, x, r))
            && (forall c :: 1 <= c < r && Candidate(v, x, stack, c) ==> Score(v, x, c) < Score(v, x, r)))
  {
    LcvScanSpec(v, x, stack, 1, 0, 0);
  }

  lemma {:induction false} ScoreWithoutOthers(w: seq<int>, x: int, m: nat)
    requires m <= |w|
    requires forall j :: 0 <= j < |w| && j != x ==> w[j] != 0
    ensures ScoreUpTo(w, x, m) == 0
  {
    if m > 0 {
      ScoreWithoutOthers(w, x, m - 1);
    }
  }

  /** When x is the only unassigned column every score is 0, so lcv returns 0. */
  lemma LcvLastVariable(v: seq<int>, x: nat, stack: seq<int>)
    requires x < |v|
    requires forall j :: 0 <= j < |v| && j != x ==> v[j] != 0
    ensures LcvChoice(v, x, stack) == 0
  {
    forall c | Candidate(v, x, stack, c) ensures Score(v, x, c) == 0 {
      ScoreWithoutOthers(v[x := c], x, |v|);
    }
    LcvChoiceSpec(v, x, stack);
  }

  /** A nonzero choice of lcv leaves another column unassigned: lcv never fills the
      last empty column. */
  lemma LcvChoiceLeavesZero(v: seq<int>, x: nat, stack: seq<int>)
    requires x < |v| && LcvChoice(v, x, stack) != 0
    ensures exists j :: 0 <= j < |v| && j != x && v[j] == 0
  {
    if forall j :: 0 <= j < |v| && j != x ==> v[j] != 0 {
      LcvLastVariable(v, x, stack);
    }
  }

  /** lcv: column x ends up 0, every other column as it was, and the result is LcvChoice. */
  method Lcv(x: int, v: array<int>, stack: seq<int>) returns (r: int)
    requires 0 <= x < v.Length
    modifies v
    ensures v[..] == old(v[..])[x := 0]
    ensures r == LcvChoice(old(v[..]), x, stack)
  {
    ghost var v0 := v[..];
    var myValue := 0;
    var lest := 0;
    var i := 1;
    while i <= v.Length
      invariant 1 <= i <= v.Length + 1
      invariant forall p :: 0 <= p < v.Length && p != x ==> v[p] == v0[p]
      invariant LcvScan(v0, x, stack, i, myValue, lest) == LcvScan(v0, x, stack, 1, 0, 0)
    {
      var temp := 0;
      v[x] := i;
      assert v[..] == v0[x := i];
      if IsLegal(x, v[..]) && i !in stack {
        var j := 0;
        while j < v.Length
          invariant 0 <= j <= v.Length
          invariant v[..] == v0[x := i]
          invariant temp == ScoreUpTo(v0[x := i], x, j)
        {
          if x != j && v[j] == 0 {
            var t := CountLegalRows(v, j);
            temp := temp + t;
          }
          j := j + 1;
        }
        if temp > lest {
          lest := temp;
          myValue := i;
        }
      }
      i := i + 1;
    }
    v[x] := 0;
    assert v[..] == v0[x := 0];
    if myValue !in stack {
      r := myValue;
    } else {
      r := 0;
    }
  }
}
