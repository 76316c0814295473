/**
  The backtracking search `realizar_cambios`: propagate, stop when no cell
  is empty, otherwise pick a cell by the minimum-remaining-values rule and
  try its candidates in ascending order, each on a copy of the state.

  The list copies `realizar_cambios` makes before each branch are implicit
  here: a branch is a new `State` value, and the caller's state is replaced
  only by a successful branch.
*/
module Backtracking {
  import opened Board
  import opened Candidates
  import opened Propagation

  /* ---------------------------------------------------------------------- */
  /* Cell selection (MRV)                                                    */
  /* ---------------------------------------------------------------------- */

  /** The scan stops as soon as it records a cell with this many candidates. */
  const StopAt := 2

  /** The row-major position of a cell, the inverse of `CellOf`. */
  function Index(a: Cell): (k: int)
    requires InGrid(a)
    ensures 0 <= k < 81 && CellOf(k) == a
  {
    RowMajor(a);
    9 * a.row + a.col
  }

  predicate IsEmpty(st: State, k: int)
    requires Is9x9(st.grid) && 0 <= k < 81
  {
    At(st.grid, CellOf(k)) == 0
  }

  /** The number of candidates of the cell at row-major position `k`. */
  function Count(st: State, k: int): nat
    requires Is9x9(st.cands) && 0 <= k < 81
  {
    |At(st.cands, CellOf(k))|
  }

  /**
    The scan state at position `k`: `best` is the position last recorded
    and `min` its count (10 before any), every empty cell before `best` has
    more candidates, every empty cell between `best` and `k` at least as
    many, and no position before `k` would have stopped the scan.
  */
  ghost predicate ScanInv(st: State, k: int, min: int, best: Option<int>)
    requires Wf(st) && 0 <= k <= 81
  {
    match best
    case None =>
      min == 10 && forall k' :: 0 <= k' < k && IsEmpty(st, k') ==> Count(st, k') >= 10
    case Some(b) =>
      && 0 <= b < k && IsEmpty(st, b)
      && min == Count(st, b) && min < 10 && min != StopAt
      && (forall k' :: 0 <= k' < b && IsEmpty(st, k') ==> Count(st, k') > min)
      && (forall k' :: b < k' < k && IsEmpty(st, k') ==> Count(st, k') >= min)
      && NoStopBefore(st, k)
  }

  /** Each empty cell before position `k` with `StopAt` candidates follows one with fewer, so the scan went past it. */
  ghost predicate NoStopBefore(st: State, k: int)
    requires Wf(st) && 0 <= k <= 81
  {
    forall e :: 0 <= e < k && IsEmpty(st, e) && Count(st, e) == StopAt ==>
      exists k' :: 0 <= k' < e && IsEmpty(st, k') && Count(st, k') < StopAt
  }

  /**
    The chosen position: an empty cell with fewer candidates than every
    empty cell before it, not preceded by a position where the scan would
    have stopped, and either with `StopAt` candidates or with no more than
    any empty cell after it.
  */
  ghost predicate IsChoice(st: State, p: int)
    requires Wf(st) && 0 <= p < 81
  {
    && IsEmpty(st, p) && Count(st, p) < 10
    && (forall k :: 0 <= k < p && IsEmpty(st, k) ==> Count(st, k) > Count(st, p))
    && NoStopBefore(st, p)
    && (Count(st, p) == StopAt || forall k :: p < k < 81 && IsEmpty(st, k) ==> Count(st, k) >= Count(st, p))
  }

  /** The nested MRV loop from position `k` on, with its double `break` on a count of `StopAt`. */
  function Scan(st: State, k: int, min: int, best: Option<int>): (r: Option<int>)
    requires Wf(st) && 0 <= k <= 81 && ScanInv(st, k, min, best)
    ensures r.Some? ==> 0 <= r.value < 81 && IsChoice(st, r.value)
    ensures r.None? <==> best.None? && forall k' :: k <= k' < 81 && IsEmpty(st, k') ==> Count(st, k') >= 10
    decreases 81 - k
  {
    if k == 81 then best
    else if IsEmpty(st, k) && Count(st, k) < min then
      if Count(st, k) == StopAt then
        ScanStop(st, k, min, best);
        Some(k)
      else
        ScanRecord(st, k, min, best);
        Scan(st, k + 1, Count(st, k), Some(k))
    else
      ScanSkip(st, k, min, best);
      Scan(st, k + 1, min, best)
  }

  /** A cell that does not beat the recorded count is passed over. */
  lemma ScanSkip(st: State, k: int, min: int, best: Option<int>)
    requires Wf(st) && 0 <= k < 81 && ScanInv(st, k, min, best)
    requires !(IsEmpty(st, k) && Count(st, k) < min)
    ensures ScanInv(st, k + 1, min, best)
  {
  }

  /** A cell that beats the recorded count, with other than `StopAt` candidates, is recorded. */
  lemma ScanRecord(st: State, k: int, min: int, best: Option<int>)
    requires Wf(st) && 0 <= k < 81 && ScanInv(st, k, min, best)
    requires IsEmpty(st, k) && Count(st, k) < min && Count(st, k) != StopAt
    ensures ScanInv(st, k + 1, Count(st, k), Some(k))
  {
  }

  /** A cell that beats the recorded count with `StopAt` candidates is the choice. */
  lemma ScanStop(st: State, k: int, min: int, best: Option<int>)
    requires Wf(st) && 0 <= k < 81 && ScanInv(st, k, min, best)
    requires IsEmpty(st, k) && Count(st, k) < min && Count(st, k) == StopAt
    ensures IsChoice(st, k)
  {
  }

  /** `mejor_celda`: the scan from the first cell with the bound 10 and nothing recorded. */
  function SelectCell(st: State): (r: Option<Cell>)
    requires Wf(st)
    ensures r.Some? ==> InGrid(r.value) && At(st.grid, r.value) == 0 && IsChoice(st, Index(r.value))
    ensures r.None? <==> forall a :: InGrid(a) ==> At(st.grid, a) != 0
  {
    EmptyCellsCount(st);
    match Scan(st, 0, 10, None)
    case None => None
    case Some(p) =>
      RowMajorInverse(p);
      Some(CellOf(p))
  }

  lemma RowMajorInverse(p: int)
    requires 0 <= p < 81
    ensures InGrid(CellOf(p)) && Index(CellOf(p)) == p
  {
  }

  /** Every empty cell has fewer than 10 candidates, so an empty cell is never passed over for good. */
  lemma EmptyCellsCount(st: State)
    requires Wf(st)
    ensures forall k :: 0 <= k < 81 ==> Count(st, k) < 10
    ensures (forall k :: 0 <= k < 81 ==> !IsEmpty(st, k)) <==> forall a :: InGrid(a) ==> At(st.grid, a) != 0
  {
    forall k | 0 <= k < 81
      ensures Count(st, k) < 10
    {
      CardBound(At(st.cands, CellOf(k)));
    }
    forall a | InGrid(a)
      ensures IsEmpty(st, Index(a)) <==> At(st.grid, a) == 0
    {
    }
  }

  lemma CardBound(s: set<int>)
    requires s <= Digits
    ensures |s| < 10
  {
    var t := Digits;
    CardDigits();
    if s != t {
      ProperSubsetSmaller(s, t);
    }
  }

  lemma CardDigits()
    ensures |Digits| == 9
  {
    assert Digits == {1, 2, 3, 4, 5, 6, 7, 8, 9};
  }

  /** The choice rule singles out one position: two positions satisfying it are the same. */
  lemma ChoiceUnique(st: State, p: int, q: int)
    requires Wf(st) && 0 <= p < 81 && 0 <= q < 81 && IsChoice(st, p) && IsChoice(st, q)
    ensures p == q
  {
  }

  /* ---------------------------------------------------------------------- */
  /* The search                                                              */
  /* ---------------------------------------------------------------------- */

  /**
    `realizar_cambios`: propagate; done when no cell is empty; otherwise
    branch on the chosen cell. A successful result is a refinement of the
    input without empty cells.
  */
  function Search(st: State, order: SetOrder): (r: Option<State>)
    requires Wf(st) && IsOrder(order)
    ensures r.Some? ==> Wf(r.value) && Refines(st, r.value) && NoZeros(r.value.grid)
    decreases |ZeroCells(st.grid)|, 1, 0
  {
    match ApplyLogic(st, order)
    case None => None
    case Some(st1) =>
      if NoZeros(st1.grid) then Some(st1)
      else
        match SelectCell(st1)
        case None => None
        case Some(x) =>
          SubsetCard(ZeroCells(st1.grid), ZeroCells(st.grid));
          var r := TryValues(st1, x, Ascending(At(st1.cands, x)), order);
          if r.Some? then
            RefinesTrans(st, st1, r.value);
            r
          else r
  }

  /**
    The branch loop: for each value in order, write it into cell `x` of a
    copy, run the candidate update, and search from there; the first branch
    that succeeds is the answer.
  */
  function TryValues(st1: State, x: Cell, vals: seq<int>, order: SetOrder): (r: Option<State>)
    requires Wf(st1) && InGrid(x) && At(st1.grid, x) == 0 && IsOrder(order)
    requires forall p :: 0 <= p < |vals| ==> vals[p] in At(st1.cands, x)
    ensures r.Some? ==> Wf(r.value) && Refines(st1, r.value) && NoZeros(r.value.grid)
    decreases |ZeroCells(st1.grid)|, 0, |vals|
  {
    if vals == [] then None
    else
      var b := Branch(st1, x, vals[0], order);
      if b.Some? then b else TryValues(st1, x, vals[1..], order)
  }

  /** Writing a candidate into an empty cell refines the state and leaves one empty cell fewer. */
  lemma AssignRefines(st1: State, x: Cell, v: int, st2: State)
    requires Wf(st1) && InGrid(x) && At(st1.grid, x) == 0 && v in At(st1.cands, x)
    requires Assign(st1, x, v) == Some(st2)
    ensures Wf(st2) && Refines(st1, st2) && At(st2.grid, x) == v
    ensures |ZeroCells(st2.grid)| < |ZeroCells(st1.grid)|
  {
    ProperSubsetSmaller(ZeroCells(st2.grid), ZeroCells(st1.grid));
  }

  /** The result of one branch: the value written into `x`, propagated and searched. */
  function Branch(st1: State, x: Cell, v: int, order: SetOrder): (r: Option<State>)
    requires Wf(st1) && InGrid(x) && At(st1.grid, x) == 0 && v in At(st1.cands, x) && IsOrder(order)
    ensures r.Some? ==> Wf(r.value) && Refines(st1, r.value) && NoZeros(r.value.grid)
    ensures r.Some? ==> At(r.value.grid, x) == v
    decreases |ZeroCells(st1.grid)|, 0, 0
  {
    match Assign(st1, x, v)
    case None => None
    case Some(st2) =>
      AssignRefines(st1, x, v, st2);
      match Search(st2, order)
      case None => None
      case Some(res) =>
        RefinesTrans(st1, st2, res);
        Some(res)
  }

  /** One step of the branch loop: the first branch if it succeeds, the rest of the loop otherwise. */
  lemma TryValuesStep(st1: State, x: Cell, vals: seq<int>, order: SetOrder)
    requires Wf(st1) && InGrid(x) && At(st1.grid, x) == 0 && vals != [] && IsOrder(order)
    requires forall p :: 0 <= p < |vals| ==> vals[p] in At(st1.cands, x)
    ensures TryValues(st1, x, vals, order) ==
      if Branch(st1, x, vals[0], order).Some? then Branch(st1, x, vals[0], order) else TryValues(st1, x, vals[1..], order)
  {
  }

  /** The branch loop fails exactly when every branch fails. */
  lemma {:induction false} TryValuesNone(st1: State, x: Cell, vals: seq<int>, order: SetOrder)
    requires Wf(st1) && InGrid(x) && At(st1.grid, x) == 0 && IsOrder(order)
    requires forall p :: 0 <= p < |vals| ==> vals[p] in At(st1.cands, x)
    ensures TryValues(st1, x, vals, order).None? <==> forall p :: 0 <= p < |vals| ==> Branch(st1, x, vals[p], order).None?
    decreases |vals|, 1
  {
    if vals != [] {
      TryValuesStep(st1, x, vals, order);
      if Branch(st1, x, vals[0], order).None? {
        TryValuesNoneLater(st1, x, vals, order);
      }
    }
  }

  lemma {:induction false} TryValuesNoneLater(st1: State, x: Cell, vals: seq<int>, order: SetOrder)
    requires Wf(st1) && InGrid(x) && At(st1.grid, x) == 0 && vals != [] && IsOrder(order)
    requires forall p :: 0 <= p < |vals| ==> vals[p] in At(st1.cands, x)
    requires Branch(st1, x, vals[0], order).None? && TryValues(st1, x, vals, order) == TryValues(st1, x, vals[1..], order)
    ensures TryValues(st1, x, vals, order).None? <==> forall p :: 0 <= p < |vals| ==> Branch(st1, x, vals[p], order).None?
    decreases |vals|, 0
  {
    var rest := vals[1..];
    TryValuesNone(st1, x, rest, order);
    forall p | 1 <= p < |vals|
      ensures Branch(st1, x, vals[p], order) == Branch(st1, x, rest[p - 1], order)
    {
      assert vals[p] == rest[p - 1];
    }
  }

  /** A successful branch loop answers with the branch of the first value `vals[p]` that succeeds. */
  lemma {:induction false} TryValuesFirst(st1: State, x: Cell, vals: seq<int>, order: SetOrder) returns (p: int)
    requires Wf(st1) && InGrid(x) && At(st1.grid, x) == 0 && IsOrder(order)
    requires forall q :: 0 <= q < |vals| ==> vals[q] in At(st1.cands, x)
    requires TryValues(st1, x, vals, order).Some?
    ensures 0 <= p < |vals| && Branch(st1, x, vals[p], order) == TryValues(st1, x, vals, order)
    ensures forall q :: 0 <= q < p ==> Branch(st1, x, vals[q], order).None?
    decreases |vals|, 1
  {
    TryValuesStep(st1, x, vals, order);
    if Branch(st1, x, vals[0], order).None? {
      p := TryValuesFirstLater(st1, x, vals, order);
    } else {
      p := 0;
    }
  }

  lemma {:induction false} TryValuesFirstLater(st1: State, x: Cell, vals: seq<int>, order: SetOrder) returns (p: int)
    requires Wf(st1) && InGrid(x) && At(st1.grid, x) == 0 && vals != [] && IsOrder(order)
    requires forall q :: 0 <= q < |vals| ==> vals[q] in At(st1.cands, x)
    requires Branch(st1, x, vals[0], order).None? && TryValues(st1, x, vals, order) == TryValues(st1, x, vals[1..], order)
    requires TryValues(st1, x, vals, order).Some?
    ensures 0 <= p < |vals| && Branch(st1, x, vals[p], order) == TryValues(st1, x, vals, order)
    ensures forall q :: 0 <= q < p ==> Branch(st1, x, vals[q], order).None?
    decreases |vals|, 0
  {
    var rest := vals[1..];
    TailWithin(vals, At(st1.cands, x));
    var p' := TryValuesFirst(st1, x, rest, order);
    p := p' + 1;
    TailAt(vals, p);
    var fails := v => v in At(st1.cands, x) && Branch(st1, x, v, order).None?;
    PrefixShift(fails, vals, p);
  }

  /** If `f` holds of the head and of the first `p - 1` entries of the tail, it holds of the first `p` entries. */
  lemma PrefixShift(f: int -> bool, vals: seq<int>, p: int)
    requires 1 <= p <= |vals| && f(vals[0])
    requires forall q :: 0 <= q < p - 1 ==> f(vals[1..][q])
    ensures forall q :: 0 <= q < p ==> f(vals[q])
  {
    forall q | 1 <= q < p
      ensures f(vals[q])
    {
      TailAt(vals, q);
    }
  }

  /** The tail of a list of candidates is a list of candidates. */
  lemma TailWithin(vals: seq<int>, s: set<int>)
    requires vals != [] && forall q :: 0 <= q < |vals| ==> vals[q] in s
    ensures forall q :: 0 <= q < |vals[1..]| ==> vals[1..][q] in s
  {
  }

  /** Entry `p` of a list is entry `p - 1` of its tail. */
  lemma TailAt(vals: seq<int>, p: int)
    requires 1 <= p < |vals|
    ensures vals[p] == vals[1..][p - 1]
  {
  }

  /**
    After successful propagation, the search returns the propagated state when
    no cell is empty, and otherwise branches on the chosen cell's candidates
    in ascending order.
  */
  lemma SearchBranches(st: State, order: SetOrder)
    requires Wf(st) && IsOrder(order) && ApplyLogic(st, order).Some?
    ensures var st1 := ApplyLogic(st, order).value;
      if NoZeros(st1.grid) then Search(st, order) == Some(st1)
      else
        SelectCell(st1).Some? &&
        var x := SelectCell(st1).value;
        Search(st, order) == TryValues(st1, x, Ascending(At(st1.cands, x)), order)
  {
    var st1 := ApplyLogic(st, order).value;
    NoZerosMeansNoEmptyCell(st1.grid);
  }
}
