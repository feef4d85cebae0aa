/** The iterative search of the second program, `backtracking(MRV, LCV)`. Its state is
    the vector (1-based rows, 0 = unassigned), the current column `k`, the MRV stack of
    columns to return to, and for every column the list of rows lcv has already
    committed there. The next column comes from `k += 1` or from mrv; the next row from
    `vector[k] += 1` or from lcv. */
module Pa2Search {
  import opened Counting
  import opened Constraints
  import opened Measure
  import opened Heuristics
  import opened Outcomes

  // ----- the path of open columns -----

  ghost function Range(n: int): (r: seq<int>)
    ensures |r| == (if n <= 0 then 0 else n) && forall i :: 0 <= i < |r| ==> r[i] == i
  {
    if n <= 0 then [] else seq(n, i requires 0 <= i < n => i)
  }

  /** The columns the search will come back to, outermost first, ending with k: the MRV
      stack plus k, or columns 0..k when columns are taken in order. */
  ghost function Path(mrvMode: bool, stack: seq<int>, k: int): (r: seq<int>)
  {
    if mrvMode then stack + [k] else Range(k + 1)
  }

  /** What grows while a column stays on the path: its row, or with LCV the number of
      rows lcv has committed there. */
  ghost function Digit(lcvMode: bool, s: seq<int>, lists: seq<seq<int>>, p: int): (r: int)
    requires 0 <= p < |s| && p < |lists|
  {
    if lcvMode then |lists[p]| else s[p]
  }

  ghost function DigitsOf(lcvMode: bool, s: seq<int>, lists: seq<seq<int>>, path: seq<int>): (r: seq<int>)
    requires |s| == N && |lists| == N && InRange(path, 0, N)
    ensures |r| == |path|
  {
    seq(|path|, d requires 0 <= d < |path| => Digit(lcvMode, s, lists, path[d]))
  }

  /** The outer-loop measure: the digits along the path read in base 9. */
  ghost function Progress(mrvMode: bool, lcvMode: bool, s: seq<int>, lists: seq<seq<int>>,
                          stack: seq<int>, k: int): (r: int)
  {
    var path := Path(mrvMode, stack, k);
    if |s| == N && |lists| == N && InRange(path, 0, N) && |path| <= MaxDepth
    then Rem(DigitsOf(lcvMode, s, lists, path))
    else 0
  }

  /** The inner-loop measure: room left in the rows, or with LCV in the lists. */
  ghost function InnerSlack(lcvMode: bool, s: seq<int>, lists: seq<seq<int>>): (r: int)
  {
    if lcvMode then Slack(seq(|lists|, p requires 0 <= p < |lists| => |lists[p]|)) else Slack(s)
  }

  /** The shape of the state: eight columns and eight lists; with MRV, k is a column;
      without it the stack stays empty and k may fall to -1. */
  ghost predicate Shape(mrvMode: bool, s: seq<int>, lists: seq<seq<int>>, stack: seq<int>, k: int)
  {
    |s| == N && |lists| == N
    && (if mrvMode then 0 <= k < N else stack == [] && -1 <= k < N)
  }

  /** The path holds distinct columns, at most one per column. */
  ghost predicate PathOk(path: seq<int>)
  {
    Distinct(path) && InRange(path, 0, N) && |path| <= MaxDepth
  }

  /** Columns off the path are unassigned. */
  ghost predicate OffPathClear(s: seq<int>, path: seq<int>)
  {
    |s| == N && forall p :: 0 <= p < N && p !in path ==> s[p] == 0
  }

  /** Columns on the path, except possibly the current one at its end, are assigned. */
  ghost predicate PathAssigned(s: seq<int>, path: seq<int>)
  {
    |s| == N && InRange(path, 0, N) && forall d :: 0 <= d < |path| - 1 ==> s[path[d]] != 0
  }

  /** Each lcv list holds distinct rows 1..8. */
  ghost predicate ListsOk(lists: seq<seq<int>>)
  {
    |lists| == N
    && forall p :: 0 <= p < N ==> Distinct(lists[p]) && InRange(lists[p], 1, N) && |lists[p]| <= 8
  }

  /** With LCV, the row assigned to a column is on that column's list. */
  ghost predicate Covered(lcvMode: bool, s: seq<int>, lists: seq<seq<int>>)
  {
    |s| == N && |lists| == N
    && (lcvMode ==> forall p :: 0 <= p < N && s[p] != 0 ==> s[p] in lists[p])
  }

  /** The loop invariant of the search. */
  ghost predicate Inv(mrvMode: bool, lcvMode: bool, s: seq<int>, lists: seq<seq<int>>,
                      stack: seq<int>, k: int)
  {
    Shape(mrvMode, s, lists, stack, k)
    && var path := Path(mrvMode, stack, k);
    PathOk(path) && RowsInRange(s) && OffPathClear(s, path) && PathAssigned(s, path)
    && ListsOk(lists) && Covered(lcvMode, s, lists)
  }

  lemma InitialInv(mrvMode: bool, lcvMode: bool, s: seq<int>, lists: seq<seq<int>>)
    requires |s| == N && forall p :: 0 <= p < N ==> s[p] == 0
    requires |lists| == N && forall p :: 0 <= p < N ==> lists[p] == []
    ensures Inv(mrvMode, lcvMode, s, lists, [], 0)
    ensures Progress(mrvMode, lcvMode, s, lists, [], 0) >= 0
  {
    assert Path(mrvMode, [], 0) == [0];
    RemNonNegative(DigitsOf(lcvMode, s, lists, [0]));
  }

  lemma ProgressNonNegative(mrvMode: bool, lcvMode: bool, s: seq<int>, lists: seq<seq<int>>,
                            stack: seq<int>, k: int)
    requires Inv(mrvMode, lcvMode, s, lists, stack, k)
    ensures Progress(mrvMode, lcvMode, s, lists, stack, k) >= 0
  {
    var path := Path(mrvMode, stack, k);
    RemNonNegative(DigitsOf(lcvMode, s, lists, path));
  }

  // ----- one round of the inner loop -----

  /** The row written at k in one round: `vector[k] + 1`, or lcv's nonzero choice, which
      is then appended to the list of k. */
  ghost predicate Assigned(lcvMode: bool, s: seq<int>, lists: seq<seq<int>>, k: int,
                           s2: seq<int>, lists2: seq<seq<int>>)
    requires 0 <= k < |s| && k < |lists|
  {
    if lcvMode then
      var t := LcvChoice(s, k, lists[k]);
      t != 0 && s2 == s[k := t] && lists2 == lists[k := lists[k] + [t]]
    else
      s[k] <= 7 && s2 == s[k := s[k] + 1] && lists2 == lists
  }

  /** Where the search goes when is_p_and_L holds: push k and ask mrv, or take k + 1. */
  ghost function ExtendStack(mrvMode: bool, stack: seq<int>, k: int): (r: seq<int>)
  {
    if mrvMode then stack + [k] else stack
  }

  ghost function ExtendColumn(mrvMode: bool, s: seq<int>, k: int): (r: int)
  {
    if mrvMode then MrvChoice(s) else k + 1
  }

  lemma AssignKeepsInv(mrvMode: bool, lcvMode: bool, s: seq<int>, lists: seq<seq<int>>,
                       stack: seq<int>, k: int, s2: seq<int>, lists2: seq<seq<int>>)
    requires Inv(mrvMode, lcvMode, s, lists, stack, k) && 0 <= k
    requires Assigned(lcvMode, s, lists, k, s2, lists2)
    ensures Inv(mrvMode, lcvMode, s2, lists2, stack, k) && s2[k] != 0
    ensures lcvMode ==> |lists[k]| < 8 && |lists2[k]| == |lists[k]| + 1
  {
    var path := Path(mrvMode, stack, k);
    assert path[|path| - 1] == k;
    if lcvMode {
      var t := LcvChoice(s, k, lists[k]);
      LcvChoiceSpec(s, k, lists[k]);
      var l := lists[k] + [t];
      assert Distinct(l) && InRange(l, 1, N);
      DistinctInRangeBound(l, 1, N);
      assert lists2[k] == l;
    }
  }

  /** With LCV the row written at k is never the last one: another column is still 0,
      so is_solution cannot hold after the assignment. */
  lemma LcvAssignedIncomplete(s: seq<int>, lists: seq<seq<int>>, k: int, s2: seq<int>, lists2: seq<seq<int>>)
    requires 0 <= k < |s| && k < |lists|
    requires Assigned(true, s, lists, k, s2, lists2)
    ensures !IsSolution(s2)
  {
    LcvChoiceLeavesZero(s, k, lists[k]);
    var j :| 0 <= j < |s| && j != k && s[j] == 0;
    assert s2[j] == 0;
    IsSolutionIff(s2);
  }

  lemma AssignLowersProgress(mrvMode: bool, lcvMode: bool, s: seq<int>, lists: seq<seq<int>>,
                             stack: seq<int>, k: int, s2: seq<int>, lists2: seq<seq<int>>)
    requires Inv(mrvMode, lcvMode, s, lists, stack, k) && 0 <= k
    requires Inv(mrvMode, lcvMode, s2, lists2, stack, k)
    requires Assigned(lcvMode, s, lists, k, s2, lists2)
    requires lcvMode ==> |lists2[k]| == |lists[k]| + 1
    ensures var path := Path(mrvMode, stack, k);
      Progress(mrvMode, lcvMode, s2, lists2, stack, k)
        == Progress(mrvMode, lcvMode, s, lists, stack, k) - Weight(|path| - 1)
  {
    var path := Path(mrvMode, stack, k);
    var n := |path|;
    assert path[n - 1] == k;
    var ds, es := DigitsOf(lcvMode, s, lists, path), DigitsOf(lcvMode, s2, lists2, path);
    assert es[..n - 1] == ds[..n - 1] by {
      forall d | 0 <= d < n - 1 ensures es[d] == ds[d] {
        assert path[d] != k;
      }
    }
    RemNonNegative(ds);
    RemBump(ds, es);
  }

  lemma AssignLowersSlack(lcvMode: bool, s: seq<int>, lists: seq<seq<int>>, k: int,
                          s2: seq<int>, lists2: seq<seq<int>>)
    requires |s| == N && |lists| == N && 0 <= k < N
    requires forall p :: 0 <= p < N ==> 0 <= s[p] <= 8 && |lists[p]| <= 8
    requires Assigned(lcvMode, s, lists, k, s2, lists2)
    requires lcvMode ==> |lists[k]| < 8 && |lists2[k]| == |lists[k]| + 1
    ensures 0 <= InnerSlack(lcvMode, s2, lists2) < InnerSlack(lcvMode, s, lists)
  {
    if lcvMode {
      var ls := seq(|lists|, p requires 0 <= p < |lists| => |lists[p]|);
      var ls2 := seq(|lists2|, p requires 0 <= p < |lists2| => |lists2[p]|);
      assert ls2 == ls[k := ls[k] + 1];
      SlackBump(ls, k);
    } else {
      SlackBump(s, k);
    }
  }

  /** The column the search moves to is unassigned and off the path, and the path has
      room for it. */
  lemma ExtendTarget(mrvMode: bool, lcvMode: bool, s: seq<int>, lists: seq<seq<int>>,
                     stack: seq<int>, k: int)
    requires Inv(mrvMode, lcvMode, s, lists, stack, k) && 0 <= k && s[k] != 0 && IsPAndL(s)
    ensures var k2, path := ExtendColumn(mrvMode, s, k), Path(mrvMode, stack, k);
      0 <= k2 < N && s[k2] == 0 && k2 !in path && |path| < MaxDepth
      && Path(mrvMode, ExtendStack(mrvMode, stack, k), k2) == path + [k2]
  {
    var path := Path(mrvMode, stack, k);
    var k2 := ExtendColumn(mrvMode, s, k);
    assert path[|path| - 1] == k;
    IsPAndLIff(s);
    var z :| 0 <= z < N && s[z] == 0;
    assert forall d :: 0 <= d < |path| ==> s[path[d]] != 0;
    AvoidingBound(path, 0, N, z);
    if mrvMode {
      MrvChoiceSpec(s);
    } else {
      assert Range(k + 2) == Range(k + 1) + [k + 1];
    }
  }

  lemma ExtendPath(s: seq<int>, path: seq<int>, k2: int)
    requires PathOk(path) && OffPathClear(s, path) && PathAssigned(s, path)
    requires |path| > 0 && s[path[|path| - 1]] != 0
    requires 0 <= k2 < N && k2 !in path && |path| < MaxDepth
    ensures PathOk(path + [k2]) && OffPathClear(s, path + [k2]) && PathAssigned(s, path + [k2])
  {
    var path2 := path + [k2];
    forall i, j | 0 <= i < j < |path2| ensures path2[i] != path2[j] {
      if j < |path| {
        assert path[i] != path[j];
      }
    }
    forall p | 0 <= p < N && p !in path2 ensures s[p] == 0 {
      assert p !in path;
    }
  }

  lemma ExtendKeepsInv(mrvMode: bool, lcvMode: bool, s: seq<int>, lists: seq<seq<int>>,
                       stack: seq<int>, k: int)
    requires Inv(mrvMode, lcvMode, s, lists, stack, k) && 0 <= k && s[k] != 0 && IsPAndL(s)
    ensures var k2 := ExtendColumn(mrvMode, s, k);
      var stack2 := ExtendStack(mrvMode, stack, k);
      0 <= k2 < N && s[k2] == 0
      && Path(mrvMode, stack2, k2) == Path(mrvMode, stack, k) + [k2]
      && |Path(mrvMode, stack, k)| < MaxDepth
      && Inv(mrvMode, lcvMode, s, lists, stack2, k2)
  {
    var path := Path(mrvMode, stack, k);
    var k2 := ExtendColumn(mrvMode, s, k);
    var stack2 := ExtendStack(mrvMode, stack, k);
    ExtendTarget(mrvMode, lcvMode, s, lists, stack, k);
    assert path[|path| - 1] == k;
    ExtendPath(s, path, k2);
    assert Shape(mrvMode, s, lists, stack2, k2);
  }

  lemma ExtendProgress(mrvMode: bool, lcvMode: bool, s: seq<int>, lists: seq<seq<int>>,
                       stack: seq<int>, k: int, stack2: seq<int>, k2: int)
    requires Inv(mrvMode, lcvMode, s, lists, stack, k) && 0 <= k
    requires 0 <= k2 < N && Path(mrvMode, stack2, k2) == Path(mrvMode, stack, k) + [k2]
    requires |Path(mrvMode, stack, k)| < MaxDepth
    ensures var path := Path(mrvMode, stack, k);
      Progress(mrvMode, lcvMode, s, lists, stack2, k2)
        < Progress(mrvMode, lcvMode, s, lists, stack, k) + Weight(|path| - 1)
  {
    var path := Path(mrvMode, stack, k);
    assert path[|path| - 1] == k;
    PushDigits(lcvMode, s, lists, path, k2);
  }

  lemma PushDigits(lcvMode: bool, s: seq<int>, lists: seq<seq<int>>, path: seq<int>, k2: int)
    requires RowsInRange(s) && ListsOk(lists) && PathOk(path) && 0 < |path| < MaxDepth && 0 <= k2 < N
    ensures Rem(DigitsOf(lcvMode, s, lists, path + [k2]))
      < Rem(DigitsOf(lcvMode, s, lists, path)) + Weight(|path| - 1)
  {
    var ds := DigitsOf(lcvMode, s, lists, path);
    var y := Digit(lcvMode, s, lists, k2);
    var es := DigitsOf(lcvMode, s, lists, path + [k2]);
    assert es == ds + [y] by {
      forall d | 0 <= d < |es| ensures es[d] == (ds + [y])[d] {
        if d < |ds| {
          assert (path + [k2])[d] == path[d];
        }
      }
    }
    assert Digits(ds);
    RemPush(ds, y);
  }

  /** One round of the inner loop from the state (s, lists) at its head: the row at k is
      assigned; the invariant holds again, the inner measure shrinks, and when
      is_p_and_L holds, so does the outer measure after moving to the next column. */
  lemma AdvanceStep(mrvMode: bool, lcvMode: bool, s: seq<int>, lists: seq<seq<int>>,
                    stack: seq<int>, k: int, s2: seq<int>, lists2: seq<seq<int>>)
    requires Inv(mrvMode, lcvMode, s, lists, stack, k) && 0 <= k
    requires Assigned(lcvMode, s, lists, k, s2, lists2)
    ensures Inv(mrvMode, lcvMode, s2, lists2, stack, k)
    ensures 0 <= Progress(mrvMode, lcvMode, s2, lists2, stack, k) < Progress(mrvMode, lcvMode, s, lists, stack, k)
    ensures 0 <= InnerSlack(lcvMode, s2, lists2) < InnerSlack(lcvMode, s, lists)
    ensures forall p :: 0 <= p < N ==> 0 <= s2[p] <= 8
    ensures IsPAndL(s2) ==>
      var k2 := ExtendColumn(mrvMode, s2, k);
      var stack2 := ExtendStack(mrvMode, stack, k);
      0 <= k2 < N && Inv(mrvMode, lcvMode, s2, lists2, stack2, k2)
      && 0 <= Progress(mrvMode, lcvMode, s2, lists2, stack2, k2) < Progress(mrvMode, lcvMode, s, lists, stack, k)
  {
    AssignKeepsInv(mrvMode, lcvMode, s, lists, stack, k, s2, lists2);
    AssignLowersProgress(mrvMode, lcvMode, s, lists, stack, k, s2, lists2);
    AssignLowersSlack(lcvMode, s, lists, k, s2, lists2);
    ProgressNonNegative(mrvMode, lcvMode, s2, lists2, stack, k);
    if IsPAndL(s2) {
      var k2 := ExtendColumn(mrvMode, s2, k);
      var stack2 := ExtendStack(mrvMode, stack, k);
      ExtendKeepsInv(mrvMode, lcvMode, s2, lists2, stack, k);
      ExtendProgress(mrvMode, lcvMode, s2, lists2, stack, k, stack2, k2);
      ProgressNonNegative(mrvMode, lcvMode, s2, lists2, stack2, k2);
    }
  }

  // ----- leaving a column -----

  ghost function RetreatStack(mrvMode: bool, stack: seq<int>): (r: seq<int>)
  {
    if mrvMode && |stack| > 0 then stack[..|stack| - 1] else stack
  }

  ghost function RetreatColumn(mrvMode: bool, stack: seq<int>, k: int): (r: int)
  {
    if mrvMode then (if |stack| > 0 then stack[|stack| - 1] else k) else k - 1
  }

  lemma RetreatPath(mrvMode: bool, stack: seq<int>, k: int)
    requires (if mrvMode then 0 <= k < N && |stack| > 0 else stack == [] && 0 <= k < N)
    requires PathOk(Path(mrvMode, stack, k))
    ensures var path, path2 := Path(mrvMode, stack, k), Path(mrvMode, RetreatStack(mrvMode, stack), RetreatColumn(mrvMode, stack, k));
      |path| > 0 && path == path2 + [k] && k !in path2 && PathOk(path2)
  {
    var path := Path(mrvMode, stack, k);
    var path2 := Path(mrvMode, RetreatStack(mrvMode, stack), RetreatColumn(mrvMode, stack, k));
    if mrvMode {
      assert stack == RetreatStack(mrvMode, stack) + [RetreatColumn(mrvMode, stack, k)];
    }
    assert path == path2 + [k];
    var n := |path|;
    forall i | 0 <= i < n - 1 ensures path2[i] == path[i] && path2[i] != k {
      assert path[i] != path[n - 1];
    }
    forall i, j | 0 <= i < j < n - 1 ensures path2[i] != path2[j] {
      assert path[i] != path[j];
    }
  }

  lemma RetreatClear(s: seq<int>, path: seq<int>, path2: seq<int>, k: int)
    requires OffPathClear(s, path) && path == path2 + [k] && 0 <= k < N
    ensures OffPathClear(s[k := 0], path2)
  {
    forall p | 0 <= p < N && p !in path2 ensures s[k := 0][p] == 0 {
      if p != k {
        assert p !in path;
      }
    }
  }

  lemma RetreatAssigned(s: seq<int>, path: seq<int>, path2: seq<int>, k: int)
    requires PathAssigned(s, path) && PathOk(path2) && path == path2 + [k] && k !in path2 && 0 <= k < N
    ensures PathAssigned(s[k := 0], path2)
  {
    forall d | 0 <= d < |path2| - 1 ensures s[k := 0][path2[d]] != 0 {
      assert path2[d] == path[d] && path2[d] != k;
    }
  }

  lemma RetreatLists(lcvMode: bool, s: seq<int>, lists: seq<seq<int>>, k: int, lists2: seq<seq<int>>)
    requires ListsOk(lists) && Covered(lcvMode, s, lists) && 0 <= k < N
    requires lists2 == lists || lists2 == lists[k := []]
    ensures ListsOk(lists2) && Covered(lcvMode, s[k := 0], lists2)
  {
  }

  lemma RetreatProgress(lcvMode: bool, s: seq<int>, lists: seq<seq<int>>, path: seq<int>, path2: seq<int>,
                        k: int, s2: seq<int>, lists2: seq<seq<int>>)
    requires 0 <= k < N && |s| == N && |lists| == N && RowsInRange(s) && ListsOk(lists)
    requires PathOk(path) && PathOk(path2) && path == path2 + [k] && k !in path2
    requires s2 == s[k := 0] && |lists2| == N && forall p :: 0 <= p < N && p != k ==> lists2[p] == lists[p]
    ensures 0 <= Rem(DigitsOf(lcvMode, s2, lists2, path2)) <= Rem(DigitsOf(lcvMode, s, lists, path))
  {
    var n := |path|;
    var ds := DigitsOf(lcvMode, s, lists, path);
    var es := DigitsOf(lcvMode, s2, lists2, path2);
    assert es == ds[..n - 1] by {
      forall d | 0 <= d < n - 1 ensures es[d] == ds[d] {
        assert path[d] == path2[d] != k;
      }
    }
    assert Digits(ds);
    RemPop(ds);
    RemNonNegative(es);
  }

  /** `vector[k] = 0` (and, after lcv gave up, the emptied list of k), then the pop or
      `k -= 1`: the invariant holds for the shorter path, whose measure is no larger. */
  lemma RetreatStep(mrvMode: bool, lcvMode: bool, s: seq<int>, lists: seq<seq<int>>,
                    stack: seq<int>, k: int, s2: seq<int>, lists2: seq<seq<int>>)
    requires Inv(mrvMode, lcvMode, s, lists, stack, k) && 0 <= k
    requires s2 == s[k := 0] && (lists2 == lists || lists2 == lists[k := []])
    requires mrvMode ==> |stack| > 0
    ensures var stack2, k2 := RetreatStack(mrvMode, stack), RetreatColumn(mrvMode, stack, k);
      Inv(mrvMode, lcvMode, s2, lists2, stack2, k2)
      && 0 <= Progress(mrvMode, lcvMode, s2, lists2, stack2, k2) <= Progress(mrvMode, lcvMode, s, lists, stack, k)
      && |Path(mrvMode, stack2, k2)| < |Path(mrvMode, stack, k)|
  {
    var path := Path(mrvMode, stack, k);
    var stack2, k2 := RetreatStack(mrvMode, stack), RetreatColumn(mrvMode, stack, k);
    var path2 := Path(mrvMode, stack2, k2);
    RetreatPath(mrvMode, stack, k);
    RetreatClear(s, path, path2, k);
    RetreatAssigned(s, path, path2, k);
    RetreatLists(lcvMode, s, lists, k, lists2);
    RetreatProgress(lcvMode, s, lists, path, path2, k, s2, lists2);
    assert Shape(mrvMode, s2, lists2, stack2, k2);
  }

  // ----- the search -----

  /** The row step of the inner loop: `vector[k] += 1`, or lcv's choice for k, which is
      written to the vector and appended to the list of k; when lcv returns 0 the column
      is cleared and its list emptied, and the caller breaks out. */
  method NextRow(lcvMode: bool, k: int, v: array<int>, lists: seq<seq<int>>)
    returns (lists2: seq<seq<int>>, gaveUp: bool)
    requires v.Length == N && 0 <= k < N && |lists| == N && v[k] <= 7
    modifies v
    ensures gaveUp ==> lcvMode && LcvChoice(old(v[..]), k, lists[k]) == 0
                       && v[..] == old(v[..])[k := 0] && lists2 == lists[k := []]
    ensures !gaveUp ==> Assigned(lcvMode, old(v[..]), lists, k, v[..], lists2)
  {
    gaveUp := false;
    lists2 := lists;
    if lcvMode {
      var temp := Lcv(k, v, lists[k]);
      if temp != 0 {
        v[k] := temp;
        lists2 := lists[k := lists[k] + [temp]];
      } else {
        v[k] := 0;
        lists2 := lists[k := []];
        gaveUp := true;
      }
    } else {
      v[k] := v[k] + 1;
    }
  }

  /** The column step after is_p_and_L: push k and take mrv's column, or move to k + 1. */
  method NextColumn(mrvMode: bool, v: array<int>, stack: seq<int>, k: int)
    returns (stack2: seq<int>, k2: int)
    requires v.Length == N
    modifies v
    ensures v[..] == old(v[..])
    ensures stack2 == ExtendStack(mrvMode, stack, k) && k2 == ExtendColumn(mrvMode, v[..], k)
  {
    if mrvMode {
      stack2 := stack + [k];
      k2 := Mrv(v);
    } else {
      stack2 := stack;
      k2 := k + 1;
    }
  }

  /** The inner loop `while vector[k] <= 7` of backtracking. It stops with a solution in
      the vector, or at a dead end: the ghost (hs, hl) is the state at the head of the last
      round, and the loop stopped either because column k holds row 8 (state unchanged)
      or because lcv found no row for column k (column k and its list cleared). The
      outer measure has not grown, shrinking unless the search is still at the column
      it entered. */
  method InnerLoop(mrvMode: bool, lcvMode: bool, v: array<int>, lists: seq<seq<int>>,
                   stack: seq<int>, k: int)
    returns (solved: bool, lists2: seq<seq<int>>, stack2: seq<int>, k2: int,
             ghost hs: seq<int>, ghost hl: seq<seq<int>>)
    requires v.Length == N && Inv(mrvMode, lcvMode, v[..], lists, stack, k) && 0 <= k
    modifies v
    ensures solved ==> IsSolution(v[..]) && forall p :: 0 <= p < N ==> 0 <= v[p] <= 8
    ensures lcvMode ==> !solved
    ensures !solved ==>
      0 <= k2 && Inv(mrvMode, lcvMode, hs, hl, stack2, k2)
      && (v[..] == hs || v[..] == hs[k2 := 0]) && (lists2 == hl || lists2 == hl[k2 := []])
      && (0 <= Progress(mrvMode, lcvMode, hs, hl, stack2, k2) < Progress(mrvMode, lcvMode, old(v[..]), lists, stack, k)
          || (Progress(mrvMode, lcvMode, hs, hl, stack2, k2) == Progress(mrvMode, lcvMode, old(v[..]), lists, stack, k)
              && |Path(mrvMode, stack2, k2)| == |Path(mrvMode, stack, k)|))
    ensures !solved ==>
      0 <= k2 < N && |hs| == N && |hl| == N
      && ((v[..] == hs && hs[k2] == 8 && lists2 == hl)
          || (lcvMode && v[..] == hs[k2 := 0] && lists2 == hl[k2 := []] && LcvChoice(hs, k2, hl[k2]) == 0))
  {
    ghost var rem0, len0 := Progress(mrvMode, lcvMode, v[..], lists, stack, k), |Path(mrvMode, stack, k)|;
    ProgressNonNegative(mrvMode, lcvMode, v[..], lists, stack, k);
    solved, lists2, stack2, k2 := false, lists, stack, k;
    hs, hl := v[..], lists;
    while v[k2] <= 7
      invariant 0 <= k2 < N
      invariant hs == v[..] && hl == lists2
      invariant Inv(mrvMode, lcvMode, hs, hl, stack2, k2)
      invariant 0 <= Progress(mrvMode, lcvMode, hs, hl, stack2, k2) < rem0
        || (Progress(mrvMode, lcvMode, hs, hl, stack2, k2) == rem0 && |Path(mrvMode, stack2, k2)| == len0)
      decreases InnerSlack(lcvMode, v[..], lists2)
    {
      var gaveUp;
      lists2, gaveUp := NextRow(lcvMode, k2, v, lists2);
      if gaveUp {
        return;
      }
      if lcvMode {
        LcvAssignedIncomplete(hs, hl, k2, v[..], lists2);
      }
      AdvanceStep(mrvMode, lcvMode, hs, hl, stack2, k2, v[..], lists2);
      if IsSolution(v[..]) {
        solved := true;
        return;
      } else if IsPAndL(v[..]) {
        stack2, k2 := NextColumn(mrvMode, v, stack2, k2);
      }
      hs, hl := v[..], lists2;
    }
  }

  /** The end of a round of the outer loop after a dead end at k: `vector[k] = 0`, then
      with MRV the previous column is popped from the stack (an empty stack stops the
      search), without it k moves back one column: the new stack and column are
      RetreatStack and RetreatColumn. The state keeps the invariant, the
      measure does not grow and the path gets shorter. */
  method Retreat(mrvMode: bool, lcvMode: bool, v: array<int>, lists: seq<seq<int>>, stack: seq<int>, k: int,
                 ghost hs: seq<int>, ghost hl: seq<seq<int>>)
    returns (stack2: seq<int>, k2: int, stop: bool)
    requires v.Length == N && 0 <= k && Inv(mrvMode, lcvMode, hs, hl, stack, k)
    requires (v[..] == hs || v[..] == hs[k := 0]) && (lists == hl || lists == hl[k := []])
    modifies v
    ensures v[..] == hs[k := 0]
    ensures stop <==> mrvMode && stack == []
    ensures !stop ==>
      Inv(mrvMode, lcvMode, v[..], lists, stack2, k2)
      && 0 <= Progress(mrvMode, lcvMode, v[..], lists, stack2, k2) <= Progress(mrvMode, lcvMode, hs, hl, stack, k)
      && |Path(mrvMode, stack2, k2)| < |Path(mrvMode, stack, k)|
    ensures !stop ==> stack2 == RetreatStack(mrvMode, stack) && k2 == RetreatColumn(mrvMode, stack, k)
  {
    v[k] := 0;
    assert v[..] == hs[k := 0];
    stack2, k2, stop := stack, k, false;
    if !mrvMode || |stack| > 0 {
      RetreatStep(mrvMode, lcvMode, hs, hl, stack, k, v[..], lists);
    }
    if mrvMode {
      if |stack| > 0 {
        k2 := stack[|stack| - 1];
        stack2 := stack[..|stack| - 1];
      } else {
        stop := true;
      }
    } else {
      k2 := k - 1;
    }
  }

  /** backtracking(MRV, LCV): anything it returns is the vector of a solution shifted to
      0-based rows; the "no Solution" text is never returned because its flag is never
      set; the loop always ends, without any bound on its rounds; and with LCV it always
      returns None, because lcv never fills the last empty column. */
  method Backtracking(mrvMode: bool, lcvMode: bool) returns (r: Outcome)
    ensures Sound(r)
    ensures r.Found? || r.NoneReturned?
    ensures lcvMode ==> r.NoneReturned?
  {
    var v := new int[N](_ => 0);
    var noSolution := false;
    var mrvStack: seq<int> := [];
    var k := 0;
    var lcvStack: seq<seq<int>> := [[], [], [], [], [], [], [], []];
    InitialInv(mrvMode, lcvMode, v[..], lcvStack);
    while k >= 0 && !noSolution
      invariant !noSolution && v.Length == N
      invariant Inv(mrvMode, lcvMode, v[..], lcvStack, mrvStack, k)
      invariant Progress(mrvMode, lcvMode, v[..], lcvStack, mrvStack, k) >= 0
      decreases Progress(mrvMode, lcvMode, v[..], lcvStack, mrvStack, k), |Path(mrvMode, mrvStack, k)|
    {
      var solved;
      ghost var hs, hl;
      solved, lcvStack, mrvStack, k, hs, hl := InnerLoop(mrvMode, lcvMode, v, lcvStack, mrvStack, k);
      if solved {
        var shifted := ShiftedDown(v[..]);
        ShiftedSolutionSound(v[..], shifted);
        return Found(shifted);
      }
      var stop;
      mrvStack, k, stop := Retreat(mrvMode, lcvMode, v, lcvStack, mrvStack, k, hs, hl);
      if stop {
        break;
      }
    }
    r := if noSolution then NoSolutionText else NoneReturned;
  }
}
