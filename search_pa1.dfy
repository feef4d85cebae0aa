/** The two iterative searches of the first program: plain chronological backtracking
    over columns 0..7, and the variant that can pick the next column with mrv. The
    vector holds 1-based rows, 0 for an unassigned column; `k` is the current column. */
module Pa1Search {
  import opened Constraints
  import opened Measure
  import opened Heuristics
  import opened Outcomes

  // ----- plain backtracking -----

  /** The state at the head of the inner loop of backtracking: columns 0..k-1 are
      assigned and pairwise consistent, columns after k are unassigned, rows stay in 0..8. */
  ghost predicate Frontier(s: seq<int>, k: int)
  {
    |s| == N && 0 <= k < N
    && (forall p :: 0 <= p < N ==> 0 <= s[p] <= 8)
    && (forall p :: 0 <= p < k ==> s[p] != 0)
    && (forall p :: k < p < N ==> s[p] == 0)
    && (forall i, j :: 0 <= i < j < k ==> !Attacks(s, i, j))
  }

  /** The termination measure of backtracking: the rows of columns 0..k as base-9 digits. */
  ghost function Progress(s: seq<int>, k: int): (r: int)
  {
    if 0 <= k < |s| && k < MaxDepth then Rem(s[..k + 1]) else 0
  }

  lemma ProgressNonNegative(s: seq<int>, k: int)
    requires Frontier(s, k)
    ensures Progress(s, k) >= 0
  {
    RemNonNegative(s[..k + 1]);
  }

  /** `vector[k] += 1` keeps the frontier and lowers the measure by the weight of k. */
  lemma BumpStep(s: seq<int>, k: int)
    requires Frontier(s, k) && s[k] <= 7
    ensures Frontier(s[k := s[k] + 1], k)
    ensures Progress(s[k := s[k] + 1], k) == Progress(s, k) - Weight(k)
  {
    var t := s[k := s[k] + 1];
    forall i, j | 0 <= i < j < k ensures !Attacks(t, i, j) {
      assert !Attacks(s, i, j);
    }
    assert t[..k] == s[..k];
    RemBump(s[..k + 1], t[..k + 1]);
  }

  /** When is_p_and_L holds after the bump, `k += 1` is a column and the frontier moves on;
      the fresh column weighs less than one unit of column k. */
  lemma DescendStep(s: seq<int>, k: int)
    requires Frontier(s, k) && s[k] != 0 && IsPAndL(s)
    ensures k + 1 < N && Frontier(s, k + 1)
    ensures Progress(s, k + 1) < Progress(s, k) + Weight(k)
  {
    IsPAndLIff(s);
    var z :| 0 <= z < N && s[z] == 0;
    assert s[..k + 2] == s[..k + 1] + [0];
    RemPush(s[..k + 1], 0);
  }

  /** `vector[k] = 0; k -= 1` after the rows of column k ran out. */
  lemma PopStep(s: seq<int>, k: int)
    requires Frontier(s, k) && s[k] == 8
    ensures k == 0 || Frontier(s[k := 0], k - 1)
    ensures 0 <= Progress(s[k := 0], k - 1) <= Progress(s, k)
  {
    assert s[k := 0][..k] == s[..k + 1][..k];
    RemPop(s[..k + 1]);
    if k > 0 {
      var t := s[k := 0];
      forall i, j | 0 <= i < j < k - 1 ensures !Attacks(t, i, j) {
        assert !Attacks(s, i, j);
      }
      ProgressNonNegative(t, k - 1);
    }
  }

  /** One round of the inner loop of backtracking from the frontier at k: the row of k is
      bumped, and when is_p_and_L then holds the search moves on to k + 1. Either way
      the measure shrinks. */
  lemma AdvanceStep(s: seq<int>, k: int)
    requires Frontier(s, k) && s[k] <= 7
    ensures var t := s[k := s[k] + 1];
      Frontier(t, k) && 0 <= Progress(t, k) < Progress(s, k)
      && (IsPAndL(t) ==> k + 1 < N && Frontier(t, k + 1) && 0 <= Progress(t, k + 1) < Progress(s, k))
  {
    var t := s[k := s[k] + 1];
    BumpStep(s, k);
    ProgressNonNegative(t, k);
    if IsPAndL(t) {
      DescendStep(t, k);
      ProgressNonNegative(t, k + 1);
    }
  }

  /** backtracking: on success the vector, shifted to 0-based rows, is a solution. The loop
      always ends: the rows v[0..k], read as digits in base 9, shrink at every step. */
  method Backtracking() returns (r: Outcome)
    ensures Sound(r)
    ensures r.Found? || r.NoneReturned?
  {
    var vector := [0, 0, 0, 0, 0, 0, 0, 0];
    var k := 0;
    ProgressNonNegative(vector, k);
    while k >= 0
      invariant k == -1 || Frontier(vector, k)
      invariant Progress(vector, k) >= 0
      decreases Progress(vector, k), k + 1
    {
      ghost var rem0, k0 := Progress(vector, k), k;
      while vector[k] <= 7
        invariant Frontier(vector, k)
        invariant 0 <= Progress(vector, k) < rem0 || (Progress(vector, k) == rem0 && k == k0)
        decreases Progress(vector, k)
      {
        AdvanceStep(vector, k);
        vector := vector[k := vector[k] + 1];
        if IsSolution(vector) {
          var shifted := ShiftedDown(vector);
          ShiftedSolutionSound(vector, shifted);
          return Found(shifted);
        } else if IsPAndL(vector) {
          k := k + 1;
        }
      }
      PopStep(vector, k);
      vector := vector[k := 0];
      k := k - 1;
    }
    return NoneReturned;
  }

  // ----- backtraking_with_mrv -----

  /** A partial, consistent vector has an unassigned column, so mrv returns a column
      index and never its sentinel. */
  lemma MrvFindsColumn(s: seq<int>)
    requires |s| == N && IsPAndL(s)
    ensures 0 <= MrvChoice(s) < N && s[MrvChoice(s)] == 0
  {
    IsPAndLIff(s);
    MrvChoiceSpec(s);
  }

  /** One dead end of backtraking_with_mrv with MRV on: the column whose row was reset
      to 0, the column the stack pop then returned, and whether the reset column was on
      top of the stack (it was pushed when chosen, or it is the first column). */
  datatype DeadEnd = DeadEnd(reset: int, popped: int, afterPush: bool)

  /** backtraking_with_mrv as written. With MRV the stack holds the path including the
      current column: the newly chosen column is pushed, so the pop after a dead end
      returns that same column, which is then searched again from row 1, and a column
      can stay assigned after it has left the stack. Termination is therefore not
      claimed: the outer loop runs for at most `fuel` rounds. Soundness holds for
      every outcome. The ghost `deadEnds` records every MRV dead end whose pop found
      a column: each one that follows a push pops the column it has just reset, and
      the first one always does. An MRV run that falls through to None has met at
      least one such dead end before its stack ran empty. */
  method BacktrackingWithMrv(mrvMode: bool, fuel: nat) returns (r: Outcome, ghost deadEnds: seq<DeadEnd>)
    ensures Sound(r)
    ensures !r.NoSolutionText?
    ensures !mrvMode ==> deadEnds == []
    ensures forall i :: 0 <= i < |deadEnds| && deadEnds[i].afterPush ==> deadEnds[i].popped == deadEnds[i].reset
    ensures |deadEnds| > 0 ==> deadEnds[0].afterPush && deadEnds[0].popped == deadEnds[0].reset
    ensures mrvMode && r.NoneReturned? ==> |deadEnds| > 0
  {
    var v := new int[N](_ => 0);
    var stack: seq<int> := [];
    var k := 0;
    if mrvMode {
      stack := stack + [k];
    }
    deadEnds := [];
    ghost var onTop := true;
    var rounds := fuel;
    while k >= 0
      invariant RowsInRange(v[..])
      invariant mrvMode && onTop ==> |stack| > 0 && stack[|stack| - 1] == k
      invariant !mrvMode ==> deadEnds == []
      invariant forall i :: 0 <= i < |deadEnds| && deadEnds[i].afterPush ==> deadEnds[i].popped == deadEnds[i].reset
      invariant |deadEnds| > 0 ==> deadEnds[0].afterPush
      invariant |deadEnds| == 0 ==> onTop
      invariant mrvMode ==> 0 <= k < N && forall i :: 0 <= i < |stack| ==> 0 <= stack[i] < N
      invariant !mrvMode ==> k == -1 || Frontier(v[..], k)
      decreases rounds
    {
      if rounds == 0 {
        return OutOfFuel, deadEnds;
      }
      rounds := rounds - 1;
      while v[k] <= 7
        invariant 0 <= k < N && RowsInRange(v[..])
        invariant mrvMode ==> forall i :: 0 <= i < |stack| ==> 0 <= stack[i] < N
        invariant !mrvMode ==> Frontier(v[..], k)
        invariant mrvMode && onTop ==> |stack| > 0 && stack[|stack| - 1] == k
        invariant |deadEnds| == 0 ==> onTop
        decreases Slack(v[..])
      {
        ghost var s := v[..];
        SlackBump(s, k);
        if !mrvMode {
          AdvanceStep(s, k);
        }
        v[k] := v[k] + 1;
        assert v[..] == s[k := s[k] + 1];
        if IsSolution(v[..]) {
          var shifted := ShiftedDown(v[..]);
          ShiftedSolutionSound(v[..], shifted);
          return Found(shifted), deadEnds;
        } else if IsPAndL(v[..]) {
          if mrvMode {
            MrvFindsColumn(v[..]);
            k := Mrv(v);
            stack := stack + [k];
            onTop := true;
          } else {
            k := k + 1;
          }
        }
      }
      ghost var s := v[..];
      if !mrvMode {
        PopStep(s, k);
      }
      v[k] := 0;
      assert v[..] == s[k := 0];
      if mrvMode {
        if |stack| > 0 {
          deadEnds := deadEnds + [DeadEnd(k, stack[|stack| - 1], onTop)];
          onTop := false;
          k := stack[|stack| - 1];
          stack := stack[..|stack| - 1];
        } else {
          break;
        }
      } else {
        k := k - 1;
      }
    }
    return NoneReturned, deadEnds;
  }
}
