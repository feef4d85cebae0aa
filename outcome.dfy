/** What a backtracking run hands back, and the final shift of a found placement from
    the search's 1-based rows to the 0-based rows the board display uses. */
module Outcomes {
  import opened Constraints

  datatype Outcome =
    | Found(placement: seq<int>)   // the vector after the shift to 0-based rows
    | NoneReturned                 // the loop ran out and the function fell through
    | NoSolutionText               // the string "no Solution" guarded by the noSolution flag
    | OutOfFuel                    // the model's bound on loop rounds ran out

  /** A search vector of N columns whose 1-based rows stay within 0..8 (0 = unassigned). */
  ghost predicate RowsInRange(s: seq<int>)
  {
    |s| == N && forall p :: 0 <= p < N ==> 0 <= s[p] <= 8
  }

  /** Anything found is a placement of N queens, rows 0..N-1, that is_solution accepts
      once shifted back to 1-based rows. */
  ghost predicate Sound(r: Outcome)
  {
    r.Found? ==>
      |r.placement| == N
      && (forall i :: 0 <= i < N ==> 0 <= r.placement[i] < N)
      && IsSolution(OneBased(r.placement))
  }

  /** The loop `vector[i] -= 1` over every column. */
  method ShiftedDown(s: seq<int>) returns (u: seq<int>)
    ensures |u| == |s| && forall i :: 0 <= i < |s| ==> u[i] == s[i] - 1
  {
    u := s;
    var i := 0;
    while i < |u|
      invariant 0 <= i <= |u| == |s|
      invariant forall p :: 0 <= p < i ==> u[p] == s[p] - 1
      invariant forall p :: i <= p < |u| ==> u[p] == s[p]
    {
      u := u[i := u[i] - 1];
      i := i + 1;
    }
  }

  /** A vector with rows in 0..8 that is_solution accepts becomes a sound result once shifted. */
  lemma ShiftedSolutionSound(w: seq<int>, u: seq<int>)
    requires |w| == N && IsSolution(w)
    requires forall i :: 0 <= i < N ==> 0 <= w[i] <= 8
    requires |u| == N && forall i :: 0 <= i < N ==> u[i] == w[i] - 1
    ensures Sound(Found(u))
  {
    IsSolutionIff(w);
    assert OneBased(u) == w;
  }
}
