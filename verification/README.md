# Sudoku solver: validation, candidates, propagation and search

A Dafny model of the solving engine of the Python script
`Solucionador_Sudokus_Avanzado.py`. The engine works in five stages:

- **Validator** (`comprobar_sudoku`): checks the 9x9 shape and the value range 0..9. It then rejects any row, column or 3x3 block whose non-zero values contain a duplicate.
- **Candidates**:
  - `calcular_candidatos` gives every empty cell the set of digits its row, column and block do not use. It fails (contradiction no. 1) when a set is empty.
  - `actualizar_candidatos` propagates one assignment: it clears the assigned cell's set and removes the value from every empty peer. It fails when that empties a peer.
- **Propagator** (`aplicar_logica`): naked singles run to a fixed point. Then one hidden-single sweep runs over the 27 regions (rows and columns interleaved, then blocks). The cycle repeats while either made an assignment. The sweep fails on contradiction no. 3 (an empty cell lists a digit its region already holds) and no. 2 (a missing digit has no cell in its region).
- **Search** (`realizar_cambios`): propagate, then stop when no cell is empty. Otherwise pick a cell by minimum remaining values, stopping early at a cell with two candidates. Then try its candidates in ascending order, each on a copy of the state. The first branch that succeeds is the answer.
- **Facade** (`solucionar_sudoku_avanzado`): returns a status code:
  - 0: invalid puzzle;
  - 1: no solution found;
  - 2: the final re-validation failed;
  - 3: solved.

The in-place mutation of the Python lists becomes a functional `State(grid, cands)` that each stage returns. A failure is `None` or `Contradiction`.

The model proves the following:

- The validator accepts exactly the conflict-free 9x9 grids with values in 0..9. Its `len(l) != len(set(l))` test detects exactly a repeated non-zero value.
- `calcular_candidatos` fails exactly when some empty cell has no legal digit. Otherwise every empty cell lists exactly its legal digits.
- `actualizar_candidatos` restores that exact candidate invariant after a write into an empty cell, and the naked-single loop keeps it.
- The propagator only writes a cell's own candidates into cells that were empty. It returns a fixed point of both kinds of single, leaves exactly the fixed points unchanged, and is idempotent.
- The MRV scan returns the unique cell its rule describes. It returns nothing exactly when no cell is empty.
- The branch loop returns the first successful branch, and fails exactly when every branch fails.
- Soundness (no conflicts, and no empty cell listing an illegal digit) is kept by every pass. So a successful search returns a solved grid that keeps every clue, and the facade never returns 2 when the input's rows are separate lists (see Left out).
- A puzzle rejected by `calcular_candidatos` has no solution.

Modules and files:

- `board.dfy`: module `Board`. Cells, grids, candidate matrices, regions, peers and the invariants.
- `regions.dfy`: module `Regions`. `valores_fila`, `valores_columna` and `valores_bloque`.
- `validator.dfy`: module `Validator`.
- `candidates.dfy`: module `Candidates`.
- `propagation.dfy`: module `Propagation`.
- `search.dfy`: module `Backtracking`.
- `soundness.dfy`: module `Soundness`. Invariant preservation for the propagator and the search.
- `solver.dfy`: module `Solver`. The facade.

Two details of `colocar_hidden` matter for the model:

- Snapshot and second write: `colocar_hidden` collects every missing digit's cells before it places anything. It then places each digit that has exactly one cell, even in a cell that an earlier digit of the same region already filled. `PlaceDigits` keeps that snapshot and the possible second write. After such a second write, a peer can miss a digit that is legal again. So the exact candidate invariant is not claimed after a hidden-single pass; the weaker soundness invariant is.
- Iteration order: the dict `contador` is iterated in insertion order, which is the iteration order of the set `faltan`. Python does not fix that order, and CPython's order depends on the set's table size (`{1, 8}` is visited as 8, 1). When one cell is the only site of two digits, the order decides which digit that cell keeps. So `PlaceHidden`, `SweepFrom`, `ApplyLogic`, `Search`, `Run` and `SolveSudoku` take the order as a parameter `order: SetOrder`. Every property is proved for each order that lists every digit of a set exactly once (`IsOrder`). Ascending order is one such order (`AscendingIsOrder`).

## Model

| member | source | states |
|---|---|---|
| Board.Ascending | Solucionador_Sudokus_Avanzado.py:206 | `sorted` of a digit set lists exactly its elements, in strictly ascending order |
| Board.RowColRegions | Solucionador_Sudokus_Avanzado.py:160-164 | sweep entries 2i and 2i+1 are row i and column i, so rows and columns are interleaved |
| Board.BlockRegion | Solucionador_Sudokus_Avanzado.py:167-171 | sweep entry 18 + 3m + n is the block with top-left corner (3m, 3n), listed row by row |
| Board.AscendingIsOrder | Solucionador_Sudokus_Avanzado.py:140-148 | visiting a set of digits in ascending order lists each of its elements exactly once, so it is one admissible iteration order of `faltan` |
| Regions.RowValues | Solucionador_Sudokus_Avanzado.py:15-16 | a value is in the result iff it is non-zero and appears in row i |
| Regions.ColValues | Solucionador_Sudokus_Avanzado.py:18-19 | a value is in the result iff it is non-zero and appears in column j |
| Regions.BlockValues | Solucionador_Sudokus_Avanzado.py:21-23 | a value is in the result iff it is non-zero and appears in a cell of the same 3x3 block as (i, j) |
| Validator.RepeatsMeaning | Solucionador_Sudokus_Avanzado.py:43-44 | the list-length versus set-size test fails exactly when two positions hold the same non-zero value |
| Validator.RegionHasNoRepeat | Solucionador_Sudokus_Avanzado.py:43-48 | one region's test succeeds iff no two of its positions share a non-zero value |
| Validator.NoConflictByRegions | Solucionador_Sudokus_Avanzado.py:40-57 | no two peers share a digit iff each of the 27 rows, columns and blocks is free of repeats |
| Validator.CheckRegions | Solucionador_Sudokus_Avanzado.py:40-57 | the row/column loop followed by the block loop succeeds iff all 27 regions are free of repeats |
| Validator.CheckBlocks | Solucionador_Sudokus_Avanzado.py:51-57 | once rows and columns passed, the block loop succeeds iff every region is free of repeats |
| Validator.CheckSudoku | Solucionador_Sudokus_Avanzado.py:29-59 | accepts iff the grid is 9x9, every value is in 0..9, and no two peers hold the same non-zero value |
| Candidates.AllowedIsLegal | Solucionador_Sudokus_Avanzado.py:71-73 | digits minus the row, column and block values are exactly the digits no peer holds |
| Candidates.HasStuckCellMeaning | Solucionador_Sudokus_Avanzado.py:74-75 | the early exit fires iff some empty cell has no legal digit |
| Candidates.ComputeCandidates | Solucionador_Sudokus_Avanzado.py:65-76 | fails iff some empty cell has no legal digit; otherwise empty cells get exactly their legal digits and filled cells the empty set |
| Candidates.UpdateOrderIsPeers | Solucionador_Sudokus_Avanzado.py:89-109 | the row, column and block loops visit exactly the peers of the assigned cell |
| Candidates.Discard | Solucionador_Sudokus_Avanzado.py:90-109 | discarding v over a cell list fails iff it would empty an empty visited cell; otherwise exactly the empty visited cells lose v |
| Candidates.UpdateCandidates | Solucionador_Sudokus_Avanzado.py:78-111 | no-op on value 0; otherwise fails iff some empty peer would lose its last candidate, and on success clears the cell, removes the value from empty peers and keeps every other set |
| Candidates.UpdateKeepsCands | Solucionador_Sudokus_Avanzado.py:78-111 | the update only shrinks candidate sets, so they stay sets of digits |
| Candidates.LegalAfterFill | Solucionador_Sudokus_Avanzado.py:86-109 | filling a cell with v removes v from the legal digits of its peers and changes no other cell's legal digits |
| Candidates.UpdateRestoresCandInv | Solucionador_Sudokus_Avanzado.py:78-111 | after a write into an empty cell and a successful update, every empty cell again lists exactly its legal digits |
| Candidates.AssignKeepsSound | Solucionador_Sudokus_Avanzado.py:78-111 | writing a digit no other peer holds, then updating, keeps the grid conflict-free and every empty cell's set within its legal digits |
| Propagation.TheElement | Solucionador_Sudokus_Avanzado.py:129 | `next(iter(s))` on a one-element set yields its element |
| Propagation.Assign | Solucionador_Sudokus_Avanzado.py:130-131 | a write plus update fails iff an empty peer would lose its last candidate; on success one cell changes, it stops being empty, and no set grows |
| Propagation.NakedScan | Solucionador_Sudokus_Avanzado.py:126-133 | one pass refines the state, and progress means strictly fewer empty cells; it returns the input unchanged iff no remaining position holds a naked single |
| Propagation.NakedScanTake | Solucionador_Sudokus_Avanzado.py:128-133 | at a naked single of a successful pass, its only candidate is written, the update succeeds, and the pass goes on to the same result |
| Propagation.NakedScanFromStart | Solucionador_Sudokus_Avanzado.py:126-128 | a full pass changes nothing iff no empty cell has exactly one candidate |
| Propagation.NakedLoop | Solucionador_Sudokus_Avanzado.py:123-133 | the loop ends in a refinement with no naked single; it changes nothing iff the input already has none |
| Propagation.Missing | Solucionador_Sudokus_Avanzado.py:139-140 | a digit is missing iff no cell of the region holds it |
| Propagation.Sites | Solucionador_Sudokus_Avanzado.py:142-147 | the sites of d are exactly the region's empty cells listing d |
| Propagation.PlaceStep | Solucionador_Sudokus_Avanzado.py:151-156 | placing a single-site digit keeps the loop invariant: a refinement of the snapshot, with every changed cell the only site of its value |
| Propagation.PlaceDigits | Solucionador_Sudokus_Avanzado.py:148-156 | the digit loop refines the snapshot, and writes only a digit into that digit's unique site |
| Propagation.PlaceDigitsFills | Solucionador_Sudokus_Avanzado.py:148-156 | on success, every listed digit with exactly one site has that cell filled |
| Propagation.PlaceDigitsNoSite | Solucionador_Sudokus_Avanzado.py:148-150 | a listed digit without any site makes the loop fail |
| Propagation.PlaceDigitsUnchanged | Solucionador_Sudokus_Avanzado.py:148-157 | the loop leaves the state alone iff every listed digit has at least two sites |
| Propagation.PlaceHidden | Solucionador_Sudokus_Avanzado.py:136-157 | for any admissible order of `faltan`: fails when an empty cell lists a digit the region holds (no. 3); on success, refines the state, writes each changed cell's value into its unique site, and fills the unique site of every missing digit that has one |
| Propagation.PlaceHiddenNoSite | Solucionador_Sudokus_Avanzado.py:148-150 | a missing digit with no site in the region makes the step fail (no. 2) |
| Propagation.PlaceHiddenUnchanged | Solucionador_Sudokus_Avanzado.py:136-157 | the step leaves the state alone iff the region passes the no. 3 test and every missing digit has two or more sites |
| Propagation.HiddenWritesInRegion | Solucionador_Sudokus_Avanzado.py:151-153 | every cell the step changes lies in the region, was empty, and received one of its candidates |
| Propagation.StableFromMeaning | Solucionador_Sudokus_Avanzado.py:160-171 | the sweep's stability predicate holds iff every remaining region is stable |
| Propagation.SweepFrom | Solucionador_Sudokus_Avanzado.py:160-171 | the sweep refines the state, and progress means strictly fewer empty cells |
| Propagation.SweepFromStep | Solucionador_Sudokus_Avanzado.py:160-171 | an unchanged region hands the sweep on; any other outcome changes the sweep's result |
| Propagation.SweepFromUnchanged | Solucionador_Sudokus_Avanzado.py:160-171 | the sweep leaves the state alone iff every remaining region is stable |
| Propagation.ApplyLogic | Solucionador_Sudokus_Avanzado.py:116-173 | on success, returns a refinement in which no naked single remains and every region is stable |
| Propagation.ApplyLogicStable | Solucionador_Sudokus_Avanzado.py:118-173 | the propagator returns its input unchanged iff the input is a fixed point of both passes |
| Propagation.ApplyLogicIdempotent | Solucionador_Sudokus_Avanzado.py:116-173 | propagating the propagator's output changes nothing |
| Backtracking.Index | Solucionador_Sudokus_Avanzado.py:191-192 | the row-major position of a cell is in 0..80 and maps back to the cell |
| Backtracking.ScanSkip | Solucionador_Sudokus_Avanzado.py:193 | a cell that does not beat the recorded minimum keeps the scan invariant |
| Backtracking.ScanRecord | Solucionador_Sudokus_Avanzado.py:193-195 | recording a cell with a strictly smaller count keeps the scan invariant |
| Backtracking.ScanStop | Solucionador_Sudokus_Avanzado.py:196-199 | the early break on a count of 2 stops at a cell satisfying the choice rule |
| Backtracking.Scan | Solucionador_Sudokus_Avanzado.py:189-199 | the scan returns a position satisfying the choice rule, and none iff nothing is recorded and no empty cell remains |
| Backtracking.SelectCell | Solucionador_Sudokus_Avanzado.py:189-202 | returns an empty cell satisfying the MRV rule with early stop at 2; none iff no cell is empty |
| Backtracking.EmptyCellsCount | Solucionador_Sudokus_Avanzado.py:189-195 | every count is below the initial bound 10, so every empty cell can be recorded |
| Backtracking.ChoiceUnique | Solucionador_Sudokus_Avanzado.py:189-199 | at most one position satisfies the choice rule |
| Backtracking.Search | Solucionador_Sudokus_Avanzado.py:179-219 | a successful search returns a refinement of its input with no empty cell |
| Backtracking.TryValues | Solucionador_Sudokus_Avanzado.py:205-219 | a successful branch loop returns a refinement with no empty cell |
| Backtracking.AssignRefines | Solucionador_Sudokus_Avanzado.py:208-210 | writing one of an empty cell's candidates into a copy refines the state and leaves one empty cell fewer |
| Backtracking.Branch | Solucionador_Sudokus_Avanzado.py:207-212 | a successful branch returns a refinement with no empty cell whose chosen cell holds the value tried |
| Backtracking.TryValuesStep | Solucionador_Sudokus_Avanzado.py:206-217 | the loop returns the first branch if it succeeds, and otherwise continues with the remaining values |
| Backtracking.TryValuesNone | Solucionador_Sudokus_Avanzado.py:205-219 | the branch loop fails iff every value's branch fails |
| Backtracking.TryValuesFirst | Solucionador_Sudokus_Avanzado.py:205-217 | a successful loop returns the branch of a value whose predecessors all failed |
| Backtracking.SearchBranches | Solucionador_Sudokus_Avanzado.py:181-206 | after propagation, the search returns the propagated state when the grid is full, and otherwise the branch loop over the chosen cell's candidates in ascending order |
| Soundness.AssignSound | Solucionador_Sudokus_Avanzado.py:209-210 | writing one of an empty cell's candidates into a sound state gives a sound state |
| Soundness.AssignCandInv | Solucionador_Sudokus_Avanzado.py:130-131 | a write into an empty cell keeps the exact candidate invariant |
| Soundness.NakedScanSound | Solucionador_Sudokus_Avanzado.py:126-133 | one naked-single pass keeps a sound state sound |
| Soundness.NakedScanCandInv | Solucionador_Sudokus_Avanzado.py:126-133 | one naked-single pass keeps the exact candidate invariant |
| Soundness.NakedLoopSound | Solucionador_Sudokus_Avanzado.py:123-133 | the naked-single loop keeps a sound state sound |
| Soundness.NakedLoopCandInv | Solucionador_Sudokus_Avanzado.py:123-133 | the naked-single loop keeps every empty cell's set equal to its legal digits |
| Soundness.PlaceDigitsSound | Solucionador_Sudokus_Avanzado.py:148-156 | the digit loop keeps soundness even when a cell is written twice |
| Soundness.HiddenWriteSound | Solucionador_Sudokus_Avanzado.py:151-155 | a hidden single's digit is held by no other peer, so writing and propagating it keeps soundness |
| Soundness.PlaceHiddenSound | Solucionador_Sudokus_Avanzado.py:136-157 | the hidden-single step keeps a sound state sound |
| Soundness.SweepFromSound | Solucionador_Sudokus_Avanzado.py:160-171 | the sweep keeps a sound state sound |
| Soundness.ApplyLogicSound | Solucionador_Sudokus_Avanzado.py:116-173 | the propagator keeps a sound state sound |
| Soundness.SearchSound | Solucionador_Sudokus_Avanzado.py:179-219 | a successful search from a sound state returns a sound state |
| Soundness.TryValuesSound | Solucionador_Sudokus_Avanzado.py:205-217 | a successful branch loop from a sound state returns a sound state |
| Soundness.BranchSound | Solucionador_Sudokus_Avanzado.py:207-212 | a successful branch from a sound state returns a sound state |
| Solver.Run | Solucionador_Sudokus_Avanzado.py:243-249 | a successful run has computed candidates and returns a full grid that keeps every clue |
| Solver.InitialState | Solucionador_Sudokus_Avanzado.py:243-246 | the state the search starts from keeps the exact candidate invariant and is sound |
| Solver.RunSolves | Solucionador_Sudokus_Avanzado.py:248-255 | from a valid puzzle, a successful run returns a solved grid that keeps every clue |
| Solver.StuckMeansNoSolution | Solucionador_Sudokus_Avanzado.py:244-246 | when candidate computation fails on a valid puzzle, no solved grid keeps its clues |
| Solver.SolveSudoku | Solucionador_Sudokus_Avanzado.py:231-255 | for an input whose rows are separate lists and any admissible order of `faltan`: code 0 iff the input is invalid (board untouched); code 1 iff valid and the run fails; code 2 never; code 3 gives a solved grid keeping every clue |

## Left out

- The Tkinter interface, `imprimir_sudoku_como_lista`, the example at the end of the file and its timing: input/output, not part of the engine.
- The type checks of the validator (`isinstance(val, bool)`, `isinstance(val, int)`): the model's grid holds integers only, so non-integer and boolean values cannot be expressed.
- The board on code 1: when `calcular_candidatos` fails, the Python code leaves the board untouched. Otherwise it leaves in the caller's lists whatever the root propagation wrote, whether that propagation failed or succeeded and every branch then failed, because branches work only on copies. `SolveSudoku` returns the input grid for code 1, and states nothing about the board for that code.
- Completeness (no solution is missed by the search) is not proved. Only soundness is proved, plus `StuckMeansNoSolution` for the first failure path.
- Propagation.PlaceHidden: the exact candidate invariant is not claimed after a hidden-single pass. A cell that is the only site of two missing digits is written twice, and a peer can then lack a digit that is legal again. Only soundness is proved for this pass.
- Propagation.ApplyLogic: requires well-formed candidate sets (a 9x9 matrix of subsets of 1..9). The Python naked-single loop does not terminate when an empty cell's set is `{0}`: it writes 0, `actualizar_candidatos` accepts a 0 without change, and the loop reports progress again. A matrix with fewer than 9 rows or a row shorter than 9 raises `IndexError`; entries past the ninth are never read. Only 9x9 matrices of subsets of 1..9 reach the propagator: `calcular_candidatos` builds them, and `actualizar_candidatos` and the copies made for each branch only shrink them. The termination measure, the number of empty cells, rests on that fact.
- The concrete iteration order CPython uses for `faltan` is not computed: it depends on the set's hash table. The order is a parameter, and the results hold for every order that visits each missing digit once.
- Solver.SolveSudoku: the input's rows are assumed to be separate lists, since the model's grid is a value and cannot express shared rows. The Python code writes rows in place, at lines 130, 153 and 214. With shared rows, such as `[[0] * 9] * 9`, each write hits every alias. The copy-back at line 214 then leaves every row equal to the last copied one, so the final check can fail and the Python answers 2. The contract's 'never 2' holds only for inputs with separate rows.
