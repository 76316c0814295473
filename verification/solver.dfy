/**
  The entry point `solucionar_sudoku_avanzado`: validate, compute the
  candidates, run propagation and search, then check the result again.
  It answers with a status code: 0 invalid puzzle, 1 no solution found,
  2 internal error, 3 solved.
*/
module Solver {
  import opened Board
  import opened Validator
  import opened Candidates
  import opened Backtracking
  import opened Soundness

  const InvalidCode := 0
  const UnsolvableCode := 1
  const ErrorCode := 2
  const SolvedCode := 3

  /** Every clue of `g` is still in place in `s`. */
  ghost predicate Extends(s: Grid, g: Grid) {
    Is9x9(s) && Is9x9(g) && forall a :: InGrid(a) && At(g, a) != 0 ==> At(s, a) == At(g, a)
  }

  /** Candidates, then propagation and search: the part between the two validations. */
  function Run(g: Grid, order: SetOrder): (r: Option<State>)
    requires Is9x9(g) && IsOrder(order)
    ensures r.Some? ==> ComputeCandidates(g).Some?
    ensures r.Some? ==> Wf(r.value) && NoZeros(r.value.grid) && Extends(r.value.grid, g)
  {
    match ComputeCandidates(g)
    case None => None
    case Some(c) => Search(State(g, c), order)
  }

  /** The state the search starts from satisfies the exact candidate invariant. */
  lemma InitialState(g: Grid)
    requires Valid(g) && ComputeCandidates(g).Some?
    ensures Wf(State(g, ComputeCandidates(g).value))
    ensures CandInv(State(g, ComputeCandidates(g).value))
    ensures Sound(State(g, ComputeCandidates(g).value))
  {
    var st := State(g, ComputeCandidates(g).value);
    CandInvIsSound(st);
  }

  /** A refinement of a grid with values in 0..9 whose candidates are digits keeps values in 0..9. */
  lemma RefinesInRange(st: State, st2: State)
    requires Wf(st) && Wf(st2) && Refines(st, st2) && InRange(st.grid)
    ensures InRange(st2.grid)
  {
  }

  /** What `Run` returns, when it returns, is a solved grid keeping every clue. */
  lemma RunSolves(g: Grid, order: SetOrder)
    requires Valid(g) && IsOrder(order) && Run(g, order).Some?
    ensures Solved(Run(g, order).value.grid) && Extends(Run(g, order).value.grid, g)
  {
    var st := State(g, ComputeCandidates(g).value);
    InitialState(g);
    SearchSound(st, order);
    RefinesInRange(st, Search(st, order).value);
  }

  /**
    A cell with no legal digit (the first way the solver answers 1) means
    that no solved grid extends the puzzle.
  */
  lemma StuckMeansNoSolution(g: Grid, s: Grid)
    requires Valid(g) && ComputeCandidates(g).None?
    ensures !(Solved(s) && Extends(s, g))
  {
    if Solved(s) && Extends(s, g) {
      var a :| InGrid(a) && At(g, a) == 0 && Legal(g, a) == {};
      var w := FilledDigit(s, a);
      assert w !in Legal(g, a);
      var b :| InGrid(b) && Peer(a, b) && At(g, b) == w;
      ClashInSolution(s, a, b);
    }
  }

  /** Every cell of a solved grid holds a digit. */
  lemma FilledDigit(s: Grid, a: Cell) returns (w: int)
    requires Solved(s) && InGrid(a)
    ensures w == At(s, a) && w in Digits
  {
    w := At(s, a);
    assert 0 !in s[a.row];
  }

  /** Two distinct peers of a solved grid hold different digits. */
  lemma ClashInSolution(s: Grid, a: Cell, b: Cell)
    requires Solved(s) && InGrid(a) && InGrid(b) && a != b && Peer(a, b)
    ensures At(s, a) != At(s, b)
  {
    assert 0 !in s[a.row];
  }

  /**
    `solucionar_sudoku_avanzado`. The returned grid is the solution when the
    code is 3, and the untouched input when the code is 0.
  */
  method SolveSudoku(g: seq<seq<int>>, order: SetOrder) returns (code: int, board: seq<seq<int>>)
    requires IsOrder(order)
    ensures code == InvalidCode || code == UnsolvableCode || code == SolvedCode
    ensures code == InvalidCode <==> !Valid(g)
    ensures code == UnsolvableCode <==> Valid(g) && Run(g, order).None?
    ensures code == InvalidCode ==> board == g
    ensures code == SolvedCode ==> Solved(board) && Extends(board, g) && board == Run(g, order).value.grid
  {
    var ok := CheckSudoku(g);
    if !ok {
      return InvalidCode, g;
    }
    var candidates := ComputeCandidates(g);
    if candidates.None? {
      return UnsolvableCode, g;
    }
    var result := Search(State(g, candidates.value), order);
    if result.None? {
      return UnsolvableCode, g;
    }
    var solved := result.value.grid;
    RunSolves(g, order);
    var ok2 := CheckSudoku(solved);
    code := if ok2 && NoZeros(solved) then SolvedCode else ErrorCode;
    board := solved;
  }
}
