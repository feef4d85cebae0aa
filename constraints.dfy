/** The constraint checker of the backtracking search: read-only predicates over a
    placement vector. Index = column, value = row of that column's queen; during
    the search rows are 1-based and 0 marks a column that is still unassigned.
    Each predicate is written as the loop the program runs (a recursion over the
    loop index, with the same early returns), and a lemma states what it decides. */
module Constraints {

  /** Board size, hard-coded throughout the program. */
  const N: int := 8

  /** Columns i and j hold queens on one row or one diagonal. */
  predicate Attacks(v: seq<int>, i: int, j: int)
    requires 0 <= i < |v| && 0 <= j < |v|
  {
    v[i] == v[j] || v[i] - v[j] == i - j || v[i] - v[j] == j - i
  }

  /** Every column is assigned. */
  ghost predicate Complete(v: seq<int>)
  {
    forall i :: 0 <= i < |v| ==> v[i] != 0
  }

  /** No two columns attack each other. */
  ghost predicate NoAttacks(v: seq<int>)
  {
    forall i, j :: 0 <= i < j < |v| ==> !Attacks(v, i, j)
  }

  /** No two assigned columns attack each other (unassigned ones are ignored). */
  ghost predicate AssignedNoAttacks(v: seq<int>)
  {
    forall i, j :: 0 <= i < j < |v| && v[i] != 0 && v[j] != 0 ==> !Attacks(v, i, j)
  }

  /** The 1-based form of a 0-based placement: every row plus one. */
  function OneBased(v: seq<int>): (r: seq<int>)
    ensures |r| == |v| && forall i :: 0 <= i < |v| ==> r[i] == v[i] + 1
  {
    seq(|v|, i requires 0 <= i < |v| => v[i] + 1)
  }

  // ----- is_partial -----

  /** The scan of is_partial from index i on. */
  function IsPartialFrom(v: seq<int>, i: nat): (b: bool)
    decreases |v| - i
  {
    if i >= |v| then false
    else if v[i] == 0 then true
    else IsPartialFrom(v, i + 1)
  }

  /** is_partial: some column is unassigned. */
  predicate IsPartial(v: seq<int>)
  {
    IsPartialFrom(v, 0)
  }

  lemma {:induction false} IsPartialFromIff(v: seq<int>, i: nat)
    ensures IsPartialFrom(v, i) <==> exists j :: i <= j < |v| && v[j] == 0
    decreases |v| - i
  {
    if i < |v| {
      IsPartialFromIff(v, i + 1);
    }
  }

  /** is_partial(v) holds exactly when some entry is 0. */
  lemma IsPartialIff(v: seq<int>)
    ensures IsPartial(v) <==> !Complete(v)
  {
    IsPartialFromIff(v, 0);
  }

  // ----- is_solution -----

  /** The inner loop of is_solution for row i: no attack between i and any j >= jFrom. */
  function PairsOkFrom(v: seq<int>, i: nat, jFrom: nat): (b: bool)
    requires i < |v|
    decreases |v| - jFrom
  {
    if jFrom >= |v| then true
    else if v[i] == v[jFrom] then false
    else if v[i] - v[jFrom] == i - jFrom || v[i] - v[jFrom] == jFrom - i then false
    else PairsOkFrom(v, i, jFrom + 1)
  }

  /** The outer loop of is_solution from row i on; is_partial is re-checked at every row. */
  function IsSolutionFrom(v: seq<int>, i: nat): (b: bool)
    decreases |v| - i
  {
    if i >= |v| then true
    else if IsPartial(v) then false
    else if !PairsOkFrom(v, i, i + 1) then false
    else IsSolutionFrom(v, i + 1)
  }

  /** is_solution: the full-consistency predicate. */
  predicate IsSolution(v: seq<int>)
  {
    IsSolutionFrom(v, 0)
  }

  lemma {:induction false} PairsOkFromIff(v: seq<int>, i: nat, jFrom: nat)
    requires i < |v|
    ensures PairsOkFrom(v, i, jFrom) <==> forall j :: jFrom <= j < |v| ==> !Attacks(v, i, j)
    decreases |v| - jFrom
  {
    if jFrom < |v| {
      PairsOkFromIff(v, i, jFrom + 1);
      if Attacks(v, i, jFrom) {
        assert !PairsOkFrom(v, i, jFrom);
      }
    }
  }

  lemma {:induction false} IsSolutionFromIff(v: seq<int>, i: nat)
    requires i < |v|
    ensures IsSolutionFrom(v, i) <==>
      Complete(v) && forall a, b :: i <= a < b < |v| ==> !Attacks(v, a, b)
    decreases |v| - i
  {
    IsPartialIff(v);
    PairsOkFromIff(v, i, i + 1);
    if i + 1 < |v| {
      IsSolutionFromIff(v, i + 1);
    }
  }

  /** is_solution(v) holds exactly when no entry is 0 and no two columns attack each other
      (for the empty vector both sides hold). */
  lemma IsSolutionIff(v: seq<int>)
    ensures IsSolution(v) <==> Complete(v) && NoAttacks(v)
  {
    if |v| > 0 {
      IsSolutionFromIff(v, 0);
    }
  }

  // ----- is_p_and_L -----

  /** The inner loop of is_p_and_L for row i: assigned columns j >= jFrom do not attack i. */
  function PartialPairsOkFrom(v: seq<int>, i: nat, jFrom: nat): (b: bool)
    requires i < |v|
    decreases |v| - jFrom
  {
    if jFrom >= |v| then true
    else if v[i] != 0 && v[jFrom] != 0 && v[i] == v[jFrom] then false
    else if v[i] != 0 && v[jFrom] != 0 && (v[i] - v[jFrom] == i - jFrom || v[i] - v[jFrom] == jFrom - i) then false
    else PartialPairsOkFrom(v, i, jFrom + 1)
  }

  /** The outer loop of is_p_and_L from row i on. */
  function PartialConsistentFrom(v: seq<int>, i: nat): (b: bool)
    decreases |v| - i
  {
    if i >= |v| then true
    else if !PartialPairsOkFrom(v, i, i + 1) then false
    else PartialConsistentFrom(v, i + 1)
  }

  /** is_p_and_L: the vector is partial and its assigned columns are consistent. */
  predicate IsPAndL(v: seq<int>)
  {
    if IsPartial(v) then PartialConsistentFrom(v, 0) else false
  }

  lemma {:induction false} PartialPairsOkFromIff(v: seq<int>, i: nat, jFrom: nat)
    requires i < |v|
    ensures PartialPairsOkFrom(v, i, jFrom) <==>
      forall j :: jFrom <= j < |v| && v[i] != 0 && v[j] != 0 ==> !Attacks(v, i, j)
    decreases |v| - jFrom
  {
    if jFrom < |v| {
      PartialPairsOkFromIff(v, i, jFrom + 1);
    }
  }

  lemma {:induction false} PartialConsistentFromIff(v: seq<int>, i: nat)
    ensures PartialConsistentFrom(v, i) <==>
      forall a, b :: i <= a < b < |v| && v[a] != 0 && v[b] != 0 ==> !Attacks(v, a, b)
    decreases |v| - i
  {
    if i < |v| {
      PartialPairsOkFromIff(v, i, i + 1);
      PartialConsistentFromIff(v, i + 1);
    }
  }

  /** is_p_and_L(v) is false on a complete vector; otherwise it holds exactly when no two
      assigned columns attack each other, however many columns are still unassigned. */
  lemma IsPAndLIff(v: seq<int>)
    ensures IsPAndL(v) <==> !Complete(v) && AssignedNoAttacks(v)
  {
    IsPartialIff(v);
    PartialConsistentFromIff(v, 0);
  }

  // ----- is_legal -----

  /** The loop of is_legal from index i on. */
  function IsLegalFrom(x: nat, v: seq<int>, i: nat): (b: bool)
    requires x < |v|
    decreases |v| - i
  {
    if i >= |v| then true
    else if x != i && v[i] != 0 && v[i] == v[x] then false
    else if x != i && v[i] != 0 && (v[i] - v[x] == i - x || v[i] - v[x] == x - i) then false
    else IsLegalFrom(x, v, i + 1)
  }

  /** is_legal(x, v): the queen in column x is attacked by no other assigned column. */
  predicate IsLegal(x: nat, v: seq<int>)
    requires x < |v|
  {
    IsLegalFrom(x, v, 0)
  }

  lemma {:induction false} IsLegalFromIff(x: nat, v: seq<int>, i: nat)
    requires x < |v|
    ensures IsLegalFrom(x, v, i) <==>
      forall j :: i <= j < |v| && j != x && v[j] != 0 ==> !Attacks(v, j, x)
    decreases |v| - i
  {
    if i < |v| {
      IsLegalFromIff(x, v, i + 1);
    }
  }

  /** is_legal(x, v) holds exactly when no other assigned column attacks column x. */
  lemma IsLegalIff(x: nat, v: seq<int>)
    requires x < |v|
    ensures IsLegal(x, v) <==> forall j :: 0 <= j < |v| && j != x && v[j] != 0 ==> !Attacks(v, j, x)
  {
    IsLegalFromIff(x, v, 0);
  }

  /** The 0-based solution [0,4,7,5,2,6,1,3] is accepted by is_solution once shifted to 1-based rows. */
  lemma KnownSolution()
    ensures IsSolution(OneBased([0, 4, 7, 5, 2, 6, 1, 3]))
  {
    var v := OneBased([0, 4, 7, 5, 2, 6, 1, 3]);
    assert v == [1, 5, 8, 6, 3, 7, 2, 4];
    IsSolutionIff(v);
  }
}
