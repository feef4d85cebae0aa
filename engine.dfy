/** The stochastic side of the engine and the recursive solver: the random candidate
    generator, the best-of-G loop of initial_board with its history, and solveNQUtil
    over the occupancy flags ld / rd / cl. The module-level state the program keeps in
    globals (best, best_atack, savedSteps, steps, ld, rd, cl) is the class Engine. */
module Engine {
  import opened Counting
  import opened Constraints
  import opened FitnessEvaluator

  /** The number of candidates initial_board draws until the window sets another. */
  const InitialGenerations: int := 500

  /** How many rounds `for i in range(0, g)` runs: none when g is zero or negative. */
  function Rounds(g: int): (r: nat)
    ensures g <= 0 ==> r == 0
    ensures g > 0 ==> r == g
  {
    if g < 0 then 0 else g
  }
  /** The starting best attack count, above any fitness the loop expects to see. */
  const InitialBestAttack: int := 10
  /** Length of each occupancy flag list. */
  const FlagCount: int := 30
  /** The board code solveNQUtil writes for a queen (the black queen piece). */
  const QueenMark: int := 6

  // ----- generate_genetic_algorithm_board -----

  /** A candidate board: one row 0..7 per column, no row used twice. */
  ghost predicate IsCandidate(l: seq<int>)
  {
    |l| == N && Distinct(l) && InRange(l, 0, N)
  }

  /** generate_genetic_algorithm_board: eight draws, each retried until it differs from
      the rows drawn so far. The random retry is a nondeterministic choice of an unused
      row in 0..7; such a row exists while fewer than eight are drawn. */
  method GenerateCandidate() returns (list: seq<int>)
    ensures IsCandidate(list)
  {
    list := [];
    var i := 0;
    while i < 8
      invariant 0 <= i <= 8 && |list| == i
      invariant Distinct(list) && InRange(list, 0, N)
    {
      ghost var y := MissingValue(list, 0, N);
      var x :| 0 <= x < N && x !in list;
      list := list + [x];
      i := i + 1;
    }
  }

  /** A candidate uses every row 0..7: it is a permutation. */
  lemma CandidateIsPermutation(l: seq<int>)
    requires IsCandidate(l)
    ensures forall x :: 0 <= x < N ==> x in l
  {
    forall x | 0 <= x < N ensures x in l {
      if x !in l {
        AvoidingBound(l, 0, N, x);
      }
    }
  }

  /** Every entry of a history is a candidate, stated one draw at a time. */
  ghost predicate AllCandidates(drawn: seq<seq<int>>)
    decreases |drawn|
  {
    |drawn| == 0 || (AllCandidates(drawn[..|drawn| - 1]) && IsCandidate(drawn[|drawn| - 1]))
  }

  /** The draw-by-draw statement is the statement about every entry. */
  lemma {:induction false} AllCandidatesIff(drawn: seq<seq<int>>)
    ensures AllCandidates(drawn) <==> forall j :: 0 <= j < |drawn| ==> IsCandidate(drawn[j])
    decreases |drawn|
  {
    if |drawn| > 0 {
      var init := drawn[..|drawn| - 1];
      AllCandidatesIff(init);
      assert forall j :: 0 <= j < |init| ==> init[j] == drawn[j];
    }
  }

  /** Appending a candidate to a history of candidates keeps it one. */
  lemma CandidatesAppend(drawn: seq<seq<int>>, list: seq<int>)
    requires AllCandidates(drawn) && IsCandidate(list)
    ensures AllCandidates(drawn + [list])
  {
    assert (drawn + [list])[..|drawn|] == drawn;
  }

  // ----- the best-of-G loop -----

  /** The loop of initial_board over the candidates in draw order, under a scoring
      function (fitness in the program): a candidate replaces (best, best attack) only
      when its score is strictly below the best attack so far. */
  function BestOf(cands: seq<seq<int>>, score: seq<int> -> nat, best: seq<int>, bestAttack: int)
    : (r: (seq<int>, int))
    decreases |cands|
  {
    if |cands| == 0 then (best, bestAttack)
    else
      var prev := BestOf(cands[..|cands| - 1], score, best, bestAttack);
      var last := cands[|cands| - 1];
      if score(last) < prev.1 then (last, score(last)) else prev
  }

  /** BestOf's defining equation unfolded at cands + [x], for the loop proof: one more
      draw wins only with a strictly smaller score. */
  lemma BestOfStep(cands: seq<seq<int>>, x: seq<int>, score: seq<int> -> nat, best: seq<int>, bestAttack: int)
    ensures var prev := BestOf(cands, score, best, bestAttack);
      BestOf(cands + [x], score, best, bestAttack) == if score(x) < prev.1 then (x, score(x)) else prev
  {
    assert (cands + [x])[..|cands|] == cands;
  }

  /** The best attack never rises and ends at the minimum of the start value and every
      candidate's score. It stays put, with the old best, exactly when no candidate is
      strictly better; otherwise the best is the FIRST candidate reaching that minimum,
      so earlier ties win. */
  lemma {:induction false} BestOfSpec(cands: seq<seq<int>>, score: seq<int> -> nat, best: seq<int>, bestAttack: int)
    ensures var r := BestOf(cands, score, best, bestAttack);
      r.1 <= bestAttack
      && (forall i :: 0 <= i < |cands| ==> r.1 <= score(cands[i]))
      && (r.1 == bestAttack <==> forall i :: 0 <= i < |cands| ==> bestAttack <= score(cands[i]))
      && (r.1 == bestAttack ==> r.0 == best)
      && (r.1 < bestAttack ==>
            exists i :: 0 <= i < |cands| && r.0 == cands[i] && r.1 == score(cands[i])
                        && forall j :: 0 <= j < i ==> r.1 < score(cands[j]))
    decreases |cands|
  {
    if |cands| > 0 {
      var n := |cands| - 1;
      var init := cands[..n];
      BestOfSpec(init, score, best, bestAttack);
      var prev := BestOf(init, score, best, bestAttack);
      var r := BestOf(cands, score, best, bestAttack);
      assert forall i :: 0 <= i < n ==> cands[i] == init[i];
      if score(cands[n]) < prev.1 {
        assert r.0 == cands[n] && r.1 == score(cands[n]);
      } else if r.1 < bestAttack {
        var i :| 0 <= i < n && prev.0 == init[i] && prev.1 == score(init[i])
                 && forall j :: 0 <= j < i ==> prev.1 < score(init[j]);
        assert r.0 == cands[i];
      }
    }
  }

  // ----- solveNQUtil -----

  /** The three occupancy flag lists, indexed by left diagonal (row - col + N - 1),
      right diagonal (row + col) and row. */
  datatype FlagKind = LeftDiagonal | RightDiagonal | Row

  function FlagIndex(kind: FlagKind, r: int, c: int): (d: int)
    requires 0 <= r < N && 0 <= c < N
    ensures 0 <= d < FlagCount
  {
    match kind
    case LeftDiagonal => r - c + N - 1
    case RightDiagonal => r + c
    case Row => r
  }

  /** Queens at rows[j] in column col + j. */
  ghost predicate QueensFrom(rows: seq<int>, col: int)
  {
    0 <= col && col + |rows| <= N && InRange(rows, 0, N)
  }

  /** Each queen's flag was clear (not 1) in `flags`. */
  ghost predicate PlacedClear(flags: seq<int>, kind: FlagKind, rows: seq<int>, col: int)
    requires QueensFrom(rows, col) && |flags| == FlagCount
  {
    forall j :: 0 <= j < |rows| ==> flags[FlagIndex(kind, rows[j], col + j)] != 1
  }

  /** `flags` with every placed queen's flag set to 1, in placement order. */
  ghost function Marked(flags: seq<int>, kind: FlagKind, rows: seq<int>, col: int): (r: seq<int>)
    requires QueensFrom(rows, col) && |flags| == FlagCount
    ensures |r| == FlagCount
    decreases |rows|
  {
    if |rows| == 0 then flags
    else Marked(flags[FlagIndex(kind, rows[0], col) := 1], kind, rows[1..], col + 1)
  }

  /** Marking sets exactly the queens' flags and leaves every other entry alone. */
  lemma {:induction false} MarkedSpec(flags: seq<int>, kind: FlagKind, rows: seq<int>, col: int, d: int)
    requires QueensFrom(rows, col) && |flags| == FlagCount && 0 <= d < FlagCount
    ensures Marked(flags, kind, rows, col)[d]
      == if exists j :: 0 <= j < |rows| && FlagIndex(kind, rows[j], col + j) == d then 1 else flags[d]
    decreases |rows|
  {
    if |rows| > 0 {
      var rest := rows[1..];
      MarkedSpec(flags[FlagIndex(kind, rows[0], col) := 1], kind, rest, col + 1, d);
      if exists j :: 0 <= j < |rest| && FlagIndex(kind, rest[j], col + 1 + j) == d {
        var j :| 0 <= j < |rest| && FlagIndex(kind, rest[j], col + 1 + j) == d;
        assert rows[j + 1] == rest[j];
      }
      if exists j :: 0 <= j < |rows| && FlagIndex(kind, rows[j], col + j) == d {
        var j :| 0 <= j < |rows| && FlagIndex(kind, rows[j], col + j) == d;
        if j > 0 {
          assert rest[j - 1] == rows[j];
        }
      }
    }
  }

  /** The board as rows of cells, board[r][c]. */
  ghost function Cells(board: array2<int>): (cells: seq<seq<int>>)
    requires board.Length0 == N && board.Length1 == N
    reads board
    ensures |cells| == N && forall r :: 0 <= r < N ==> |cells[r]| == N
    ensures forall r, c :: 0 <= r < N && 0 <= c < N ==> cells[r][c] == board[r, c]
  {
    seq(N, r requires 0 <= r < N reads board => seq(N, c requires 0 <= c < N reads board => board[r, c]))
  }

  /** What solveNQUtil reads and writes: the three flag lists and the board. */
  datatype SolverState = SolverState(ld: seq<int>, rd: seq<int>, cl: seq<int>, cells: seq<seq<int>>)

  ghost predicate Shaped(s: SolverState)
  {
    |s.ld| == FlagCount && |s.rd| == FlagCount && |s.cl| == FlagCount
    && |s.cells| == N && forall r :: 0 <= r < N ==> |s.cells[r]| == N
  }

  /** Cell (i, col) of the board set to `mark` and the three flags of that cell to `flag`. */
  ghost function Write(s: SolverState, i: int, col: int, flag: int, mark: int): (t: SolverState)
    requires Shaped(s) && 0 <= i < N && 0 <= col < N
    ensures Shaped(t)
  {
    SolverState(s.ld[FlagIndex(LeftDiagonal, i, col) := flag], s.rd[FlagIndex(RightDiagonal, i, col) := flag],
                s.cl[FlagIndex(Row, i, col) := flag], s.cells[i := s.cells[i][col := mark]])
  }

  /** The queen at row i of column col written to the board, its three flags set. */
  ghost function Place(s: SolverState, i: int, col: int): (t: SolverState)
    requires Shaped(s) && 0 <= i < N && 0 <= col < N
    ensures Shaped(t)
  {
    Write(s, i, col, 1, QueenMark)
  }

  /** Clearing a placed queen and its flags restores a state where that cell and its
      flags were 0. */
  lemma PlaceUndone(s: SolverState, i: int, col: int)
    requires Shaped(s) && 0 <= i < N && 0 <= col < N
    requires s.ld[FlagIndex(LeftDiagonal, i, col)] == 0 && s.rd[FlagIndex(RightDiagonal, i, col)] == 0
             && s.cl[FlagIndex(Row, i, col)] == 0 && s.cells[i][col] == 0
    ensures Write(Place(s, i, col), i, col, 0, 0) == s
  {
    var t := Write(Place(s, i, col), i, col, 0, 0);
    assert t.ld == s.ld && t.rd == s.rd && t.cl == s.cl;
    assert t.cells[i] == s.cells[i];
    assert t.cells == s.cells;
  }

  /** `cells` with a queen written at rows[j] of column col + j for every j. */
  ghost function PlacedBoard(cells: seq<seq<int>>, rows: seq<int>, col: int): (b: seq<seq<int>>)
    requires QueensFrom(rows, col) && |cells| == N && forall r :: 0 <= r < N ==> |cells[r]| == N
    ensures |b| == N && forall r :: 0 <= r < N ==> |b[r]| == N
    decreases |rows|
  {
    if |rows| == 0 then cells
    else PlacedBoard(cells[rows[0] := cells[rows[0]][col := QueenMark]], rows[1..], col + 1)
  }

  /** Placing writes exactly the queens' cells and leaves every other cell alone. */
  lemma {:induction false} PlacedBoardSpec(cells: seq<seq<int>>, rows: seq<int>, col: int, r: int, c: int)
    requires QueensFrom(rows, col) && |cells| == N && forall r :: 0 <= r < N ==> |cells[r]| == N
    requires 0 <= r < N && 0 <= c < N
    ensures PlacedBoard(cells, rows, col)[r][c]
      == if col <= c < col + |rows| && r == rows[c - col] then QueenMark else cells[r][c]
    decreases |rows|
  {
    if |rows| > 0 {
      PlacedBoardSpec(cells[rows[0] := cells[rows[0]][col := QueenMark]], rows[1..], col + 1, r, c);
      if col + 1 <= c < col + |rows| {
        assert rows[1..][c - col - 1] == rows[c - col];
      }
    }
  }

  /** The success relation of solveNQUtil from column col: the queens rows[j] in columns
      col + j fill the remaining columns, attack none of each other, sit on cells whose
      flags were clear before, and are exactly what changed on the board and the flags. */
  ghost predicate Solved(s0: SolverState, s1: SolverState, rows: seq<int>, col: int)
    requires Shaped(s0)
  {
    |rows| == N - col && QueensFrom(rows, col) && NoAttacks(rows)
    && PlacedClear(s0.ld, LeftDiagonal, rows, col)
    && PlacedClear(s0.rd, RightDiagonal, rows, col)
    && PlacedClear(s0.cl, Row, rows, col)
    && s1.ld == Marked(s0.ld, LeftDiagonal, rows, col)
    && s1.rd == Marked(s0.rd, RightDiagonal, rows, col)
    && s1.cl == Marked(s0.cl, Row, rows, col)
    && s1.cells == PlacedBoard(s0.cells, rows, col)
  }

  /** A queen at (r, c) whose flags are still clear after the queen at (i, col) was placed
      shares no row and no diagonal with it. */
  lemma FlagsSeparate(s0: SolverState, i: int, col: int, r: int, c: int)
    requires Shaped(s0) && 0 <= i < N && 0 <= r < N && 0 <= col < c < N
    requires var s := Place(s0, i, col);
      s.ld[FlagIndex(LeftDiagonal, r, c)] != 1 && s.rd[FlagIndex(RightDiagonal, r, c)] != 1
      && s.cl[FlagIndex(Row, r, c)] != 1
    ensures i != r && i - r != col - c && i - r != c - col
  {
  }

  /** The queen placed at row i of column col, followed by the queens the recursive call
      placed from the state with i's flags set, is a success from column col. */
  lemma PlacedQueens(s0: SolverState, s1: SolverState, i: int, sub: seq<int>, col: int)
    requires Shaped(s0) && 0 <= i < N && 0 <= col < N
    requires s0.ld[FlagIndex(LeftDiagonal, i, col)] != 1 && s0.rd[FlagIndex(RightDiagonal, i, col)] != 1
             && s0.cl[FlagIndex(Row, i, col)] != 1
    requires Solved(Place(s0, i, col), s1, sub, col + 1)
    ensures Solved(s0, s1, [i] + sub, col)
  {
    var rows := [i] + sub;
    var s := Place(s0, i, col);
    assert rows[1..] == sub;
    FlagsPrepend(s0.ld, LeftDiagonal, i, sub, col);
    FlagsPrepend(s0.rd, RightDiagonal, i, sub, col);
    FlagsPrepend(s0.cl, Row, i, sub, col);
    assert PlacedBoard(s0.cells, rows, col) == s1.cells;
    forall j | 0 <= j < |sub| ensures i != sub[j] && i - sub[j] != -(j + 1) && i - sub[j] != j + 1 {
      FlagsSeparate(s0, i, col, sub[j], col + 1 + j);
    }
    PrependNoAttacks(i, sub);
  }

  /** The first queen's flag was clear and the later queens' flags were clear once it was
      set: all of them were clear before, and marking them all is marking the first one
      and then the rest. */
  lemma FlagsPrepend(flags: seq<int>, kind: FlagKind, i: int, sub: seq<int>, col: int)
    requires |flags| == FlagCount && 0 <= i < N && QueensFrom(sub, col + 1) && 0 <= col
    requires flags[FlagIndex(kind, i, col)] != 1
    requires PlacedClear(flags[FlagIndex(kind, i, col) := 1], kind, sub, col + 1)
    ensures QueensFrom([i] + sub, col)
    ensures PlacedClear(flags, kind, [i] + sub, col)
    ensures Marked(flags, kind, [i] + sub, col) == Marked(flags[FlagIndex(kind, i, col) := 1], kind, sub, col + 1)
  {
    var rows := [i] + sub;
    assert rows[1..] == sub;
    forall j | 0 <= j < |rows| ensures flags[FlagIndex(kind, rows[j], col + j)] != 1 {
      if j > 0 {
        assert rows[j] == sub[j - 1];
      }
    }
  }

  /** A queen in front of a consistent placement that shares no row and no diagonal with
      any of its queens keeps the placement consistent. */
  lemma PrependNoAttacks(i: int, sub: seq<int>)
    requires NoAttacks(sub)
    requires forall j :: 0 <= j < |sub| ==> i != sub[j] && i - sub[j] != -(j + 1) && i - sub[j] != j + 1
    ensures NoAttacks([i] + sub)
  {
    var rows := [i] + sub;
    forall a, b | 0 <= a < b < |rows| ensures !Attacks(rows, a, b) {
      if a == 0 {
        assert rows[b] == sub[b - 1];
      } else {
        assert rows[a] == sub[a - 1] && rows[b] == sub[b - 1];
        assert !Attacks(sub, a - 1, b - 1);
      }
    }
  }

  /** A solution found from column 0 is a placement is_solution accepts once made 1-based. */
  lemma PlacementIsSolution(rows: seq<int>)
    requires QueensFrom(rows, 0) && |rows| == N && NoAttacks(rows)
    ensures IsSolution(OneBased(rows))
  {
    var v := OneBased(rows);
    forall i, j | 0 <= i < j < N ensures !Attacks(v, i, j) {
      assert !Attacks(rows, i, j);
    }
    IsSolutionIff(v);
  }

  class Engine {
    var best: seq<int>
    var bestAttack: int
    var savedSteps: seq<seq<int>>
    var steps: int
    var generations: int
    var ld: array<int>
    var rd: array<int>
    var cl: array<int>

    /** The three flag lists exist, have 30 entries and are separate lists. */
    ghost predicate Valid()
      reads this
    {
      ld.Length == FlagCount && rd.Length == FlagCount && cl.Length == FlagCount
      && ld != rd && ld != cl && rd != cl
    }

    /** The module-level start: empty best and history, best attack 10, 500 generations,
        zero flags. */
    constructor ()
      ensures Valid() && fresh(ld) && fresh(rd) && fresh(cl)
      ensures best == [] && bestAttack == InitialBestAttack && savedSteps == [] && steps == 0
      ensures generations == InitialGenerations
      ensures forall d :: 0 <= d < FlagCount ==> ld[d] == 0 && rd[d] == 0 && cl[d] == 0
    {
      best := [];
      bestAttack := InitialBestAttack;
      savedSteps := [];
      steps := 0;
      generations := InitialGenerations;
      ld := new int[FlagCount](_ => 0);
      rd := new int[FlagCount](_ => 0);
      cl := new int[FlagCount](_ => 0);
    }

    /** The window's event loop stores the number typed into its generations field; the
        next initial_board draws that many candidates. Nothing else changes. */
    method SetGenerations(g: int)
      modifies this`generations
      ensures generations == g
    {
      generations := g;
    }

    /** initial_board: fresh zero flag lists, then one draw per generation; every candidate is
        appended to the history in draw order and (best, best attack) follow BestOf over
        the draws. The best is returned. */
    method InitialBoard() returns (r: seq<int>)
      modifies this
      ensures Valid() && fresh(ld) && fresh(rd) && fresh(cl)
      ensures forall d :: 0 <= d < FlagCount ==> ld[d] == 0 && rd[d] == 0 && cl[d] == 0
      ensures generations == old(generations)
      ensures steps == Rounds(generations)
      ensures |savedSteps| == |old(savedSteps)| + Rounds(generations)
      ensures savedSteps[..|old(savedSteps)|] == old(savedSteps)
      ensures forall i :: |old(savedSteps)| <= i < |savedSteps| ==> IsCandidate(savedSteps[i])
      ensures (best, bestAttack) == BestOf(savedSteps[|old(savedSteps)|..], Fitness, old(best), old(bestAttack))
      ensures r == best
    {
      ResetFlags();
      ghost var drawn := Draws(Rounds(generations));
      AllCandidatesIff(drawn);
      assert savedSteps[|old(savedSteps)|..] == drawn;
      r := best;
    }

    /** The three fresh zero flag lists initial_board starts with. */
    method ResetFlags()
      modifies this`ld, this`rd, this`cl
      ensures Valid() && fresh(ld) && fresh(rd) && fresh(cl)
      ensures forall d :: 0 <= d < FlagCount ==> ld[d] == 0 && rd[d] == 0 && cl[d] == 0
    {
      ld := new int[FlagCount](_ => 0);
      rd := new int[FlagCount](_ => 0);
      cl := new int[FlagCount](_ => 0);
    }

    /** The loop of initial_board for n rounds: the step counter restarts, and n candidates
        are drawn, appended to the history and folded into (best, best attack). */
    method Draws(n: nat) returns (ghost drawn: seq<seq<int>>)
      modifies this`steps, this`best, this`bestAttack, this`savedSteps
      ensures steps == n && |drawn| == n
      ensures savedSteps == old(savedSteps) + drawn
      ensures AllCandidates(drawn)
      ensures (best, bestAttack) == BestOf(drawn, Fitness, old(best), old(bestAttack))
    {
      steps := 0;
      drawn := [];
      var i := 0;
      while i < n
        invariant 0 <= i <= n && steps == i && |drawn| == i
        invariant savedSteps == old(savedSteps) + drawn
        invariant AllCandidates(drawn)
        invariant (best, bestAttack) == BestOf(drawn, Fitness, old(best), old(bestAttack))
      {
        var list := Draw(drawn, old(savedSteps), old(best), old(bestAttack));
        drawn := drawn + [list];
        i := i + 1;
      }
    }

    /** One round of the loop of initial_board: count the step, draw a candidate, score it,
        keep it when it beats the best attack strictly, append it to the history. Stated
        against the draws so far: the history is their record after saved0, and (best,
        best attack) is BestOf over them from (best0, attack0). */
    method Draw(ghost drawn: seq<seq<int>>, ghost saved0: seq<seq<int>>, ghost best0: seq<int>, ghost attack0: int)
      returns (list: seq<int>)
      requires savedSteps == saved0 + drawn && AllCandidates(drawn)
      requires (best, bestAttack) == BestOf(drawn, Fitness, best0, attack0)
      modifies this`steps, this`best, this`bestAttack, this`savedSteps
      ensures IsCandidate(list) && AllCandidates(drawn + [list])
      ensures steps == old(steps) + 1 && savedSteps == old(savedSteps) + [list]
      ensures savedSteps == saved0 + (drawn + [list])
      ensures (best, bestAttack) == BestOf(drawn + [list], Fitness, best0, attack0)
    {
      steps := steps + 1;
      list := GenerateCandidate();
      var fitnessNum := Fitness(list);
      BestOfStep(drawn, list, Fitness, best0, attack0);
      CandidatesAppend(drawn, list);
      if fitnessNum < bestAttack {
        bestAttack := fitnessNum;
        best := list;
      }
      savedSteps := savedSteps + [list];
      assert saved0 + drawn + [list] == saved0 + (drawn + [list]);
    }

    /** The flag lists and the board as values. */
    ghost function State(board: array2<int>): (s: SolverState)
      requires Valid() && board.Length0 == N && board.Length1 == N
      reads this, ld, rd, cl, board
      ensures Shaped(s)
    {
      SolverState(ld[..], rd[..], cl[..], Cells(board))
    }

    /** The flags hold only 0 and 1, and columns col.. of the board are empty: the state
        each recursive call of solveNQUtil hands on, and the state the commented-out
        top-level call in initial_board would see after the zero flags and board. */
    ghost predicate Clean(board: array2<int>, col: int)
      reads this, ld, rd, cl, board
    {
      Valid() && board.Length0 == N && board.Length1 == N && 0 <= col <= N
      && (forall d :: 0 <= d < FlagCount ==> (ld[d] == 0 || ld[d] == 1))
      && (forall d :: 0 <= d < FlagCount ==> (rd[d] == 0 || rd[d] == 1))
      && (forall d :: 0 <= d < FlagCount ==> (cl[d] == 0 || cl[d] == 1))
      && forall r, c :: 0 <= r < N && col <= c < N ==> board[r, c] == 0
    }

    /** solveNQUtil(board, col): on True, Solved relates the entry state to the final
        one; on False the board and the flags are as on entry, every mark undone. */
    method SolveNQUtil(board: array2<int>, col: int) returns (solved: bool, ghost rows: seq<int>)
      requires Clean(board, col)
      modifies board, ld, rd, cl, this`steps
      ensures solved ==> Solved(old(State(board)), State(board), rows, col)
      ensures !solved ==> State(board) == old(State(board))
      decreases N - col, 1
    {
      if col >= N {
        return true, [];
      }
      steps := 0;
      var i := 0;
      while i < N
        invariant 0 <= i <= N
        invariant Clean(board, col)
        invariant State(board) == old(State(board))
      {
        steps := steps + 1;
        if ld[i - col + N - 1] != 1 && rd[i + col] != 1 && cl[i] != 1 {
          solved, rows := PlaceQueen(board, i, col);
          if solved {
            return;
          }
        }
        i := i + 1;
      }
      return false, [];
    }

    /** The body of the row loop of solveNQUtil for a cell whose flags are clear: mark,
        recurse on col + 1, and on failure unmark. */
    method PlaceQueen(board: array2<int>, i: int, col: int) returns (solved: bool, ghost rows: seq<int>)
      requires Clean(board, col) && col < N && 0 <= i < N
      requires ld[i - col + N - 1] != 1 && rd[i + col] != 1 && cl[i] != 1
      modifies board, ld, rd, cl, this`steps
      ensures solved ==> Solved(old(State(board)), State(board), rows, col)
      ensures solved ==> |rows| > 0 && rows[0] == i
      ensures !solved ==> State(board) == old(State(board))
      decreases N - col, 0
    {
      ghost var s0 := State(board);
      SetCell(board, i, col, 1, QueenMark);
      var ok, sub := SolveNQUtil(board, col + 1);
      if ok {
        rows := [i] + sub;
        PlacedQueens(s0, State(board), i, sub, col);
        return true, rows;
      }
      SetCell(board, i, col, 0, 0);
      PlaceUndone(s0, i, col);
      return false, [];
    }

    /** `board[i][col] = mark` and the three flags of that cell set to `flag`. */
    method SetCell(board: array2<int>, i: int, col: int, flag: int, mark: int)
      requires Valid() && board.Length0 == N && board.Length1 == N && 0 <= i < N && 0 <= col < N
      modifies board, ld, rd, cl
      ensures State(board) == Write(old(State(board)), i, col, flag, mark)
    {
      ghost var c0 := Cells(board);
      board[i, col] := mark;
      ld[i - col + N - 1] := flag;
      rd[i + col] := flag;
      cl[i] := flag;
      ghost var c1 := c0[i := c0[i][col := mark]];
      forall r | 0 <= r < N ensures Cells(board)[r] == c1[r] {
        assert forall c :: 0 <= c < N ==> Cells(board)[r][c] == c1[r][c];
      }
      assert Cells(board) == c1;
    }
  }
}
