# N-queens search engine

A Dafny model of the eight-queens search engine of the two programs `PA1.py` and
`PA2.py`. The engine works on a placement vector of eight integers. The index is the
column and the value is the row of that column's queen. The stochastic side uses
0-based rows. The backtracking side uses 1-based rows, with 0 for a column that is not
yet assigned. A search result is shifted back to 0-based rows before it is returned.

The model follows the program module by module:

- `Constraints` (constraints.dfy): `is_partial`, `is_solution`, `is_p_and_L` and
  `is_legal`. Each is written as the loop the program runs, with the same early
  returns, and an if-and-only-if lemma states what it decides.
- `FitnessEvaluator` (fitness.dfy): `fitness`.
  - It computes the two diagonal-identifier lists `c[i] - i` and `(size + 1) - c[i] - i`.
  - It sorts each list (`sorted`, modelled as insertion sort, proved ascending and a
    permutation).
  - It counts equal adjacent pairs from sorted index 2 on.
  - Lemmas give the bound, the all-pairs reference count it is compared with, and
    the placement whose collision at sorted positions 0/1 is never counted.
- `Heuristics` (heuristics.dfy): `mrv` and `lcv`.
  - Both are methods on an `array` that write trial rows into the vector and restore
    it.
  - Each is proved equal to a specification function (`MrvChoice`, `LcvChoice`).
    Lemmas characterise what that function picks.
- `Measure` (measure.dfy): a termination measure for the iterative searches. The
  digits along the path of open columns are read as a number in base 9.
- `Outcomes` (outcome.dfy): what a search returns, and the final 0-based shift.
- `Pa1Search` (search_pa1.dfy): `backtracking()` and `backtraking_with_mrv(MRV)` of
  `PA1.py`. Both are methods over the vector.
- `Pa2Search` (search_pa2.dfy): `backtracking(MRV, LCV)` of `PA2.py`.
  - The state is the vector, `k`, `MRV_stack` and the per-column lists of `LCV_stack`.
  - It is proved sound and terminating in all four modes.
- `Engine` (engine.dfy): the module-level state of the program, as the class
  `Engine`. It holds `best`, `best_atack`, `savedSteps`, `steps` and the flag lists
  `ld`/`rd`/`cl`.
  - `generate_genetic_algorithm_board` and the best-of-G loop of `initial_board`, where G is the `generations` field.
  - `solveNQUtil`, with its mark-and-unmark of the board and the three flag lists.

`fitness`, the four predicates, `mrv`, `generate_genetic_algorithm_board` and the loop
of `initial_board` are the same code in both programs. They are modelled once, and the
table cites `PA1.py`. The copies are at `PA2.py:459-485`, `PA2.py:496-538`,
`PA2.py:568-584`, `PA2.py:165-172` and `PA2.py:148-159`.

The programs differ in who sets `generations`. Both start it at 500 (`PA1.py:706`,
`PA2.py:490`). PA1's event loop stores the number typed into the window on every event
(`PA1.py:572-574`), so its draw count is an input; PA2 never writes it again. The model
keeps it as the field `generations`, set to 500 by the constructor and written by
`SetGenerations`. A count of zero or less draws nothing, as `range(0, g)` does.

## Model

| member | source | states |
|---|---|---|
| `Constraints.IsPartialIff` | PA1.py:758-763 | is_partial(v) holds exactly when some entry of v is 0 |
| `Constraints.IsSolutionIff` | PA1.py:746-756 | is_solution(v) holds exactly when no entry is 0 and no two columns share a row or a diagonal |
| `Constraints.IsPAndLIff` | PA1.py:765-776 | is_p_and_L(v) is false on a vector with no 0; otherwise it holds exactly when no two assigned columns attack each other, whatever the unassigned ones |
| `Constraints.IsLegalIff` | PA1.py:780-792 | is_legal(x, v) holds exactly when no other assigned column shares a row or a diagonal with column x |
| `Constraints.KnownSolution` | PA1.py:746-756 | the 0-based placement [0,4,7,5,2,6,1,3], made 1-based, is accepted by is_solution |
| `FitnessEvaluator.SortAscending` | PA1.py:678-679 | `sorted` returns an ascending permutation of its input |
| `FitnessEvaluator.AdjacentEqualFrom` | PA1.py:680-686 | the pair count from index `from` is at most one per index from..size-1 |
| `FitnessEvaluator.FitnessBounds` | PA1.py:680-689 | fitness is at most 2*(size-2) when size >= 2, and 0 for size <= 2 |
| `FitnessEvaluator.FitnessMissesFirstPairOnly` | PA1.py:680-689 | starting at index 2 undercounts the all-pairs count by at most one pair per list |
| `FitnessEvaluator.FullCountZeroIff` | PA1.py:664-689 | the all-pairs reference count is 0 exactly when no two queens share a diagonal |
| `FitnessEvaluator.FullCountZeroIsSolution` | PA1.py:664-689 | for distinct rows, the all-pairs count is 0 exactly when no two queens attack each other |
| `FitnessEvaluator.FitnessOfSolution` | PA1.py:664-689 | a placement in which no two queens attack each other has fitness 0 |
| `FitnessEvaluator.MinimumPairNotCounted` | PA1.py:680-686 | when the only repeated identifier is the least one and occurs twice, the count from index 2 is 0 while the all-pairs count is 1 |
| `FitnessEvaluator.FitnessOfDiagonal` | PA1.py:674-689 | fitness([0..7]) = 6: all slope-one identifiers are 0 and give 6 pairs, and the slope-minus-one identifiers 9-2i give none |
| `FitnessEvaluator.FitnessOfKnownSolution` | PA1.py:664-689 | the known solution [0,4,7,5,2,6,1,3] has fitness 0 |
| `FitnessEvaluator.FitnessBlindSpot` | PA1.py:680-686 | [0,3,6,4,7,1,5,2] has fitness 0 although columns 4 and 6 share a diagonal |
| `FitnessEvaluator.FullCountSeesBlindSpot` | PA1.py:680-686 | counting from index 1 finds that collision: the all-pairs count is 1 |
| `Heuristics.CountLegalRows` | PA1.py:804-810 | the trial loop over rows 1..8 of an unassigned column restores the vector and returns the number of legal rows |
| `Heuristics.MrvScanSpec` | PA1.py:801-817 | the scan keeps the first unassigned column of least legal-row count seen so far, or the sentinel while none was seen |
| `Heuristics.MrvChoiceSpec` | PA1.py:797-819 | mrv returns 10 exactly when no entry is 0; otherwise an unassigned column whose count is <= every unassigned column's count and < that of every earlier one |
| `Heuristics.Mrv` | PA1.py:797-819 | mrv leaves the vector as it was and returns MrvChoice of it |
| `Heuristics.LcvScanSpec` | PA2.py:545-558 | the scan keeps the first untried legal row of greatest positive score seen so far, or 0 while none scored above 0 |
| `Heuristics.LcvChoiceSpec` | PA2.py:541-563 | lcv returns 0 exactly when no untried legal row scores above 0; otherwise a row in 1..8, not in the stack, legal at x, of greatest score, the first such |
| `Heuristics.LcvLastVariable` | PA2.py:549-563 | when x is the only unassigned column every score is 0, so lcv returns 0 |
| `Heuristics.LcvChoiceLeavesZero` | PA2.py:549-563 | when lcv returns a nonzero row for x, some other column is still unassigned |
| `Heuristics.Lcv` | PA2.py:541-563 | on return column x is 0 and every other entry is as on entry; the result is LcvChoice of the entry vector |
| `Outcomes.ShiftedDown` | PA1.py:831-832 | the final loop subtracts 1 from every entry |
| `Outcomes.ShiftedSolutionSound` | PA1.py:828-834 | a vector is_solution accepts, shifted down, is a placement of rows 0..7 whose 1-based form is a solution |
| `Pa1Search.BumpStep` | PA1.py:827 | `vector[k] += 1` keeps the frontier invariant (0..k-1 assigned and consistent, columns after k unassigned) and lowers the measure |
| `Pa1Search.DescendStep` | PA1.py:835-836 | when is_p_and_L holds, k + 1 is a column and the frontier invariant holds there |
| `Pa1Search.PopStep` | PA1.py:837-838 | `vector[k] = 0; k -= 1` after the rows of k ran out keeps the frontier invariant at k - 1 and does not raise the measure |
| `Pa1Search.AdvanceStep` | PA1.py:826-836 | one round of the inner loop keeps the frontier and shrinks the measure, whether or not k moves on |
| `Pa1Search.Backtracking` | PA1.py:822-838 | backtracking always ends; anything it returns has rows 0..7 and, shifted to 1-based rows, satisfies is_solution; otherwise it falls through to None |
| `Pa1Search.MrvFindsColumn` | PA1.py:857-860 | after is_p_and_L holds, mrv returns an unassigned column and never the sentinel |
| `Pa1Search.BacktrackingWithMrv` | PA1.py:841-871 | anything backtraking_with_mrv returns is a solution shifted to 0-based rows; otherwise it falls through to None (or the model's round bound runs out). With MRV, every dead end whose column was pushed when it was chosen (and always the first dead end) pops that same column back, as the ghost record `deadEnds` states; an MRV run that returns None has recorded at least one such dead end |
| `Pa2Search.InitialInv` | PA2.py:589-593 | the zero vector, empty lists, empty stack and k = 0 satisfy the search invariant |
| `Pa2Search.AssignKeepsInv` | PA2.py:597-607 | writing the next row (the bump, or lcv's nonzero choice appended to the list of k) keeps the invariant and assigns k |
| `Pa2Search.AdvanceStep` | PA2.py:596-617 | one round of the inner loop keeps the invariant and shrinks the inner and outer measures; after is_p_and_L the new column keeps the invariant |
| `Pa2Search.ExtendKeepsInv` | PA2.py:612-617 | after is_p_and_L the next column (k + 1, or mrv's choice with k pushed) is unassigned, off the path and never the sentinel |
| `Pa2Search.RetreatStep` | PA2.py:618-626 | `vector[k] = 0` and the pop or `k -= 1` keep the invariant, shorten the path and do not raise the measure |
| `Pa2Search.NextRow` | PA2.py:597-607 | the row step: lcv's nonzero choice is written and appended to the list of k, or the vector is bumped; when lcv returns 0, column k is cleared and its list reset to [] |
| `Pa2Search.NextColumn` | PA2.py:612-617 | the column step: push k and take mrv's column, or k + 1; the vector is unchanged |
| `Pa2Search.LcvAssignedIncomplete` | PA2.py:597-608 | with LCV, the vector after lcv's nonzero row is written at k is never accepted by is_solution |
| `Pa2Search.InnerLoop` | PA2.py:596-617 | the inner loop ends with a solution in the vector or at a dead end with the invariant kept and the outer measure not raised; a dead end is either column k at row 8 with the state unchanged, or (with LCV) lcv returning 0 for column k, which clears column k and its list; with LCV it never ends solved |
| `Pa2Search.Retreat` | PA2.py:618-626 | `vector[k] = 0`, then a stop exactly when the MRV stack is empty; otherwise the new stack and column are the pop (MRV) or `k - 1`, as RetreatStack/RetreatColumn give them, the invariant holds and the path shortens |
| `Pa2Search.Backtracking` | PA2.py:588-628 | backtracking(MRV, LCV) always ends; anything it returns is a solution shifted to 0-based rows; it returns None otherwise and never "no Solution"; with LCV it always returns None |
| `Engine.GenerateCandidate` | PA1.py:254-261 | the generator returns eight distinct rows, each in 0..7 |
| `Engine.CandidateIsPermutation` | PA1.py:254-261 | such a candidate holds every row 0..7: it is a permutation |
| `Engine.BestOfSpec` | PA1.py:230-239 | the best attack never rises and ends at the minimum of 10 and every score; it stays put, with the old best, exactly when no draw is strictly better; otherwise the best is the first draw reaching the minimum |
| `Engine.Engine.constructor` | PA1.py:704-708 | the module-level start: empty best and history, best attack 10, steps 0, generations 500, and (from PA1.py:650-660) three zero flag lists of 30 |
| `Engine.Engine.SetGenerations` | PA1.py:572-574 | the event loop's write of the typed number: generations becomes g and nothing else changes |
| `Engine.Engine.InitialBoard` | PA1.py:204-248 | fresh zero flag lists; generations is unchanged; exactly max(G, 0) candidates appended to savedSteps in draw order, each a permutation; steps = max(G, 0); (best, best attack) is BestOf over the draws, so G <= 0 keeps the old best; best is returned |
| `Engine.Engine.ResetFlags` | PA1.py:210-212 | ld, rd and cl become fresh lists of 30 zeros |
| `Engine.Engine.Draws` | PA1.py:229-239 | for n rounds (initial_board passes max(G, 0), the rounds of `range(0, G)`): steps restarts at 0 and ends at n; the history grows by exactly the n draws, each a permutation; (best, best attack) follow BestOf |
| `Engine.Engine.Draw` | PA1.py:231-239 | one round: steps + 1, a permutation is drawn, kept only on strict improvement, and appended to savedSteps; the history stays the record of the draws and (best, best attack) stays BestOf over them |
| `Engine.AllCandidatesIff` | PA1.py:229-239 | the draw-by-draw invariant of the loop (every draw so far is a permutation) is the statement about every entry of the history |
| `Engine.MarkedSpec` | PA1.py:726 | marking sets exactly the placed queens' flags to 1 and leaves every other flag alone |
| `Engine.PlacedBoardSpec` | PA1.py:725 | placing writes the queen code exactly at the placed queens' cells |
| `Engine.PlaceUndone` | PA1.py:731-732 | clearing a cell and its flags after marking them restores the state when they were 0 |
| `Engine.FlagsSeparate` | PA1.py:722-723 | a queen whose flags are clear after another queen was marked shares no row or diagonal with it |
| `Engine.FlagsPrepend` | PA1.py:722-729 | a queen placed on clear flags followed by queens placed on clear flags afterwards were all on clear flags, and the marks compose |
| `Engine.PrependNoAttacks` | PA1.py:722-729 | a queen in front of a consistent placement that none of its queens attacks keeps it consistent |
| `Engine.PlacedQueens` | PA1.py:722-729 | the queen at (i, col) and the queens of the successful recursive call form a success from column col |
| `Engine.PlacementIsSolution` | PA1.py:710-734 | a success from column 0 is a placement that is_solution accepts once made 1-based |
| `Engine.Engine.SolveNQUtil` | PA1.py:710-734 | on True, queens fill columns col..7, one per column, pairwise non-attacking, each on cells whose flags were clear, and the board and flags changed by exactly those marks; on False, board, ld, rd and cl are as on entry |
| `Engine.Engine.PlaceQueen` | PA1.py:724-732 | mark the cell and its flags, recurse on col + 1; on success the queen of column col stands at row i and the result is that queen followed by the recursive placement, solved from col; on failure the marks are undone |
| `Engine.Engine.SetCell` | PA1.py:725-726 | `board[i][col]` and the three flags of that cell are written, nothing else changes |

## Left out

- The GUI (`EasyChessGui`, window layout, board rendering, the event loop and history
  navigation), the PGN bookkeeping through the chess library, `datetime`, `print` and
  logging. These are user-interface code and foreign calls.
- `Engine.Engine.SetGenerations`: the parse of the typed text at `PA1.py:574` is left
  out. The method takes the parsed number; when the text is not a number the program
  keeps the old value, which is the same as not calling the method.
- The sort of the history by fitness after a stochastic run (`PA1.py:613`). It lives
  in the event handler, not in the engine.
- Randomness. `random.randrange` and the retry loop of the generator become a
  nondeterministic choice of a row not yet drawn. Neither the distribution nor the
  termination of the retry is modelled.
- The append of the builtin `list` to `savedSteps` at `PA2.py:595`. It records no
  state of the search.
- The unused local `board` of `initial_board` (`PA1.py:213-221`), which is never read.
- `Pa2Search.Backtracking`: completeness is not claimed without LCV. With LCV the
  search never finds a solution, and the model proves that it always returns None.
  lcv returns 0 at the last unassigned column (`Heuristics.LcvLastVariable`), so a
  nonzero choice always leaves a column at 0 and is_solution never holds. A list is
  also not reset when the inner loop ends at row 8. Soundness and termination are
  proved in all four modes.
- `Pa1Search.Backtracking`: completeness, i.e. that a solution is found, is not
  proved. Soundness and termination are.
- `Pa1Search.BacktrackingWithMrv`: termination is not claimed, and the outer loop is
  bounded by a `fuel` parameter (outcome `OutOfFuel`).
  - In MRV mode the newly chosen column is pushed, not the previous one (`PA1.py:859-860`).
  - A dead end therefore pops the column that was just reset. That column is searched
    again from row 1. The method's postcondition on `deadEnds` states this.
  - A column can also stay assigned after it has left the stack, so the path measure
    used for the other searches does not apply.
  - Soundness is proved for every outcome.
- `Engine.Engine.SolveNQUtil`: the value of `steps` is left unspecified; the method
  only resets and counts it. The method requires the flags to hold only 0/1 and
  columns col..7 of the board to be empty. solveNQUtil is unreachable in the program:
  its only top-level call (`PA1.py:222`) is commented out, so only its own recursive
  calls exist, and each of them hands this state on. It is also the state the
  commented-out call would see after the zero flags and board of `PA1.py:210-221`.
  From another state the unmark would not restore the entry values.
- `Engine.BestOfSpec`: the bound `fitness <= 9` on permutations is not proved. So the
  model does not show that the first draw always replaces the initial best attack 10.
  Only `fitness <= 12` is proved.
- Helper methods: the loop bodies of `backtracking(MRV, LCV)` and `initial_board` and
  the body of the row loop of `solveNQUtil` are split into helper methods. They are
  `NextRow`, `NextColumn`, `InnerLoop`, `Retreat`, `ResetFlags`, `Draws`, `Draw`,
  `PlaceQueen` and `SetCell`. Each does what the inlined code does, in the same order.
- Board size: N = 8 is a constant, as in the programs. The flag lists have 30
  entries, and the mrv sentinel 10 exceeds every column and every count.
