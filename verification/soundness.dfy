/**
  Soundness of the propagator and the search: starting from a grid without
  conflicts and candidate sets that list only legal digits, every pass keeps
  both, so a successful search returns a filled grid without conflicts.

  The exact candidate invariant (sets equal to the legal digits) is kept by
  the naked-single pass; a hidden-single pass can write one cell twice, after
  which a peer may miss a digit that became legal again, so for it only the
  subset form is claimed.
*/
module Soundness {
  import opened Board
  import opened Candidates
  import opened Propagation
  import opened Backtracking

  /* ---------------------------------------------------------------------- */
  /* One assignment                                                          */
  /* ---------------------------------------------------------------------- */

  /** Writing one of an empty cell's candidates keeps a sound state sound. */
  lemma AssignSound(st: State, a: Cell, v: int, st1: State)
    requires Wf(st) && Sound(st) && InGrid(a) && At(st.grid, a) == 0 && v in At(st.cands, a)
    requires Assign(st, a, v) == Some(st1)
    ensures Wf(st1) && Sound(st1)
  {
    assert v in Legal(st.grid, a);
    AssignKeepsSound(st, a, v);
  }

  /** A well-formed state that keeps the exact candidate invariant. */
  ghost predicate Exact(st: State) {
    Wf(st) && CandInv(st)
  }

  /** Writing a digit into an empty cell keeps the exact candidate invariant. */
  lemma AssignCandInv(st: State, a: Cell, v: int, st1: State)
    requires Exact(st) && InGrid(a) && At(st.grid, a) == 0 && v in Digits
    requires Assign(st, a, v) == Some(st1)
    ensures Exact(st1)
  {
    UpdateRestoresCandInv(st, a, v);
  }

  /* ---------------------------------------------------------------------- */
  /* Naked singles                                                           */
  /* ---------------------------------------------------------------------- */

  lemma {:induction false} NakedScanSound(st: State, k: int)
    requires Wf(st) && 0 <= k <= 81 && Sound(st) && NakedScan(st, k).Done?
    ensures Sound(NakedScan(st, k).state)
    decreases 81 - k, 1
  {
    if k == 81 {
      NakedScanEnd(st);
    } else if IsNakedSingle(st, CellOf(k)) {
      NakedTakeSound(st, k);
    } else {
      NakedSkipSound(st, k);
    }
  }

  lemma {:induction false} NakedSkipSound(st: State, k: int)
    requires Wf(st) && 0 <= k < 81 && Sound(st) && !IsNakedSingle(st, CellOf(k)) && NakedScan(st, k).Done?
    ensures Sound(NakedScan(st, k).state)
    decreases 81 - k, 0
  {
    NakedScanSkip(st, k);
    NakedScanSound(st, k + 1);
  }

  lemma {:induction false} NakedTakeSound(st: State, k: int)
    requires Wf(st) && 0 <= k < 81 && Sound(st) && IsNakedSingle(st, CellOf(k)) && NakedScan(st, k).Done?
    ensures Sound(NakedScan(st, k).state)
    decreases 81 - k, 0
  {
    var st1 := TakeSound(st, k);
    NakedScanSound(st1, k + 1);
  }

  /** Writing a naked single keeps a sound state sound; the pass continues from the new state. */
  lemma TakeSound(st: State, k: int) returns (st1: State)
    requires Wf(st) && 0 <= k < 81 && Sound(st) && IsNakedSingle(st, CellOf(k)) && NakedScan(st, k).Done?
    ensures Wf(st1) && Sound(st1)
    ensures NakedScan(st1, k + 1).Done? && NakedScan(st1, k + 1).state == NakedScan(st, k).state
  {
    var v;
    v, st1 := NakedScanTake(st, k);
    AssignSound(st, CellOf(k), v, st1);
  }

  lemma {:induction false} NakedScanCandInv(st: State, k: int)
    requires Wf(st) && 0 <= k <= 81 && Exact(st) && NakedScan(st, k).Done?
    ensures Exact(NakedScan(st, k).state)
    decreases 81 - k, 1
  {
    if k == 81 {
      NakedScanEnd(st);
    } else if IsNakedSingle(st, CellOf(k)) {
      NakedTakeCandInv(st, k);
    } else {
      NakedSkipCandInv(st, k);
    }
  }

  lemma {:induction false} NakedSkipCandInv(st: State, k: int)
    requires Wf(st) && 0 <= k < 81 && Exact(st) && !IsNakedSingle(st, CellOf(k)) && NakedScan(st, k).Done?
    ensures Exact(NakedScan(st, k).state)
    decreases 81 - k, 0
  {
    NakedScanSkip(st, k);
    NakedScanCandInv(st, k + 1);
  }

  lemma {:induction false} NakedTakeCandInv(st: State, k: int)
    requires Wf(st) && 0 <= k < 81 && Exact(st) && IsNakedSingle(st, CellOf(k)) && NakedScan(st, k).Done?
    ensures Exact(NakedScan(st, k).state)
    decreases 81 - k, 0
  {
    var st1 := TakeExact(st, k);
    NakedScanCandInv(st1, k + 1);
  }

  /** Writing a naked single keeps the exact candidate invariant; the pass continues from the new state. */
  lemma TakeExact(st: State, k: int) returns (st1: State)
    requires Wf(st) && 0 <= k < 81 && Exact(st) && IsNakedSingle(st, CellOf(k)) && NakedScan(st, k).Done?
    ensures Exact(st1)
    ensures NakedScan(st1, k + 1).Done? && NakedScan(st1, k + 1).state == NakedScan(st, k).state
  {
    var v;
    v, st1 := NakedScanTake(st, k);
    AssignCandInv(st, CellOf(k), v, st1);
  }

  lemma {:induction false} NakedLoopSound(st: State)
    requires Wf(st) && Sound(st) && NakedLoop(st).Done?
    ensures Sound(NakedLoop(st).state)
    decreases |ZeroCells(st.grid)|
  {
    NakedScanSound(st, 0);
    var st1 := NakedScan(st, 0).state;
    if NakedScan(st, 0).progress {
      ProperSubsetSmaller(ZeroCells(st1.grid), ZeroCells(st.grid));
      NakedLoopSound(st1);
    }
  }

  /** The naked-single loop keeps every empty cell's set equal to its legal digits. */
  lemma {:induction false} NakedLoopCandInv(st: State)
    requires Wf(st) && CandInv(st) && NakedLoop(st).Done?
    ensures CandInv(NakedLoop(st).state)
    decreases |ZeroCells(st.grid)|
  {
    NakedScanCandInv(st, 0);
    var st1 := NakedScan(st, 0).state;
    if NakedScan(st, 0).progress {
      ProperSubsetSmaller(ZeroCells(st1.grid), ZeroCells(st.grid));
      NakedLoopCandInv(st1);
    }
  }

  /* ---------------------------------------------------------------------- */
  /* Hidden singles                                                          */
  /* ---------------------------------------------------------------------- */

  /**
    The digit loop keeps a sound state sound. Each written digit was legal
    at its cell in the snapshot `st0`, and the cells written so far hold
    digits already processed, so no peer holds the digit being placed, even
    when a cell is written a second time.
  */
  lemma {:induction false} PlaceDigitsSound(st0: State, r: seq<Cell>, st: State, ds: seq<int>)
    requires Wf(st0) && Wf(st) && InGridCells(r)
    requires Refines(st0, st) && ZeroCells(st.grid) <= ZeroCells(st0.grid)
    requires forall x :: InGrid(x) && At(st.grid, x) != At(st0.grid, x) ==> Sites(st0, r, At(st.grid, x)) == [x]
    requires Sound(st0) && Sound(st) && Distinct(ds)
    requires forall x :: InGrid(x) && At(st.grid, x) != At(st0.grid, x) ==> At(st.grid, x) !in ds
    requires PlaceDigits(st0, r, st, ds).Done?
    ensures Sound(PlaceDigits(st0, r, st, ds).state)
    decreases |ds|, 1
  {
    if ds == [] {
    } else if |Sites(st0, r, ds[0])| == 1 {
      PlaceOneSound(st0, r, st, ds);
    } else {
      PlaceDigitsSound(st0, r, st, ds[1..]);
    }
  }

  /** The step of the digit loop that writes a digit with a single site. */
  lemma {:induction false} PlaceOneSound(st0: State, r: seq<Cell>, st: State, ds: seq<int>)
    requires Wf(st0) && Wf(st) && InGridCells(r)
    requires Refines(st0, st) && ZeroCells(st.grid) <= ZeroCells(st0.grid)
    requires forall x :: InGrid(x) && At(st.grid, x) != At(st0.grid, x) ==> Sites(st0, r, At(st.grid, x)) == [x]
    requires Sound(st0) && Sound(st) && Distinct(ds)
    requires forall x :: InGrid(x) && At(st.grid, x) != At(st0.grid, x) ==> At(st.grid, x) !in ds
    requires ds != [] && |Sites(st0, r, ds[0])| == 1
    requires PlaceDigits(st0, r, st, ds).Done?
    ensures Sound(PlaceDigits(st0, r, st, ds).state)
    decreases |ds|, 0
  {
    var d := ds[0];
    var q := Sites(st0, r, d)[0];
    SingleSite(st0, r, d);
    var st1 := Assign(st, q, d).value;
    PlaceStep(st0, r, st, d, q, st1);
    HiddenWriteSound(st0, r, st, d, q, st1);
    HiddenWriteFresh(st0, st, ds, q, st1);
    PlaceDigitsSound(st0, r, st1, ds[1..]);
  }

  /**
    A hidden single keeps soundness: the digit was legal at its cell in the
    snapshot, and a peer changed since then holds an earlier, different digit.
  */
  lemma HiddenWriteSound(st0: State, r: seq<Cell>, st: State, d: int, q: Cell, st1: State)
    requires Wf(st0) && Wf(st) && InGridCells(r)
    requires forall x :: InGrid(x) && At(st.grid, x) != At(st0.grid, x) ==> Sites(st0, r, At(st.grid, x)) == [x]
    requires Sound(st0) && Sound(st)
    requires Sites(st0, r, d) == [q] && InGrid(q) && At(st0.grid, q) == 0 && d in At(st0.cands, q) && d in Digits
    requires At(st.grid, q) == At(st0.grid, q) || At(st.grid, q) != d
    requires Assign(st, q, d) == Some(st1)
    ensures Sound(st1)
  {
    assert d in Legal(st0.grid, q);
    forall b | InGrid(b) && Peer(q, b) && b != q
      ensures At(st.grid, b) != d
    {
      if At(st.grid, b) == At(st0.grid, b) {
        assert !Sees(st0.grid, q, d);
      }
    }
    AssignKeepsSound(st, q, d);
  }

  /** After writing `ds[0]` into `q`, no changed cell holds a digit still to come. */
  lemma HiddenWriteFresh(st0: State, st: State, ds: seq<int>, q: Cell, st1: State)
    requires Wf(st0) && Wf(st) && Wf(st1) && InGrid(q) && Distinct(ds) && ds != []
    requires forall x :: InGrid(x) && At(st.grid, x) != At(st0.grid, x) ==> At(st.grid, x) !in ds
    requires st1.grid == Put(st.grid, q, ds[0])
    ensures Distinct(ds[1..])
    ensures forall x :: InGrid(x) && At(st1.grid, x) != At(st0.grid, x) ==> At(st1.grid, x) !in ds[1..]
  {
    forall p, p' | 0 <= p < |ds| - 1 && 0 <= p' < |ds| - 1 && p != p'
      ensures ds[1..][p] != ds[1..][p']
    {
      assert ds[1..][p] == ds[p + 1] && ds[1..][p'] == ds[p' + 1];
    }
    forall p | 0 <= p < |ds| - 1
      ensures ds[1..][p] != ds[0]
    {
      assert ds[1..][p] == ds[p + 1];
    }
    forall x | InGrid(x) && At(st1.grid, x) != At(st0.grid, x)
      ensures At(st1.grid, x) !in ds[1..]
    {
      if x != q {
        assert At(st1.grid, x) == At(st.grid, x);
      }
    }
  }

  lemma PlaceHiddenSound(st: State, r: seq<Cell>, order: SetOrder)
    requires Wf(st) && InGridCells(r) && IsOrder(order) && Sound(st) && PlaceHidden(st, r, order).Done?
    ensures Sound(PlaceHidden(st, r, order).state)
  {
    assert Lists(order, Missing(st.grid, r));
    PlaceDigitsSound(st, r, st, order(Missing(st.grid, r)));
  }

  lemma {:induction false} SweepFromSound(st: State, k: int, order: SetOrder)
    requires Wf(st) && 0 <= k <= 27 && IsOrder(order) && Sound(st) && SweepFrom(st, k, order).Done?
    ensures Sound(SweepFrom(st, k, order).state)
    decreases 27 - k
  {
    if k < 27 {
      PlaceHiddenSound(st, Region(k), order);
      SweepFromSound(PlaceHidden(st, Region(k), order).state, k + 1, order);
    }
  }

  /** The propagator keeps a sound state sound. */
  lemma {:induction false} ApplyLogicSound(st: State, order: SetOrder)
    requires Wf(st) && IsOrder(order) && Sound(st) && ApplyLogic(st, order).Some?
    ensures Sound(ApplyLogic(st, order).value)
    decreases |ZeroCells(st.grid)|
  {
    NakedLoopSound(st);
    var n := NakedLoop(st);
    SweepFromSound(n.state, 0, order);
    var h := SweepFrom(n.state, 0, order);
    if n.progress || h.progress {
      ProperSubsetSmaller(ZeroCells(h.state.grid), ZeroCells(st.grid));
      ApplyLogicSound(h.state, order);
    }
  }

  /* ---------------------------------------------------------------------- */
  /* Search                                                                  */
  /* ---------------------------------------------------------------------- */

  /** A successful search from a sound state returns a filled grid without conflicts. */
  lemma {:induction false} SearchSound(st: State, order: SetOrder)
    requires Wf(st) && IsOrder(order) && Sound(st) && Search(st, order).Some?
    ensures Sound(Search(st, order).value)
    decreases |ZeroCells(st.grid)|, 2, 0
  {
    ApplyLogicSound(st, order);
    var st1 := ApplyLogic(st, order).value;
    SearchBranches(st, order);
    if !NoZeros(st1.grid) {
      SubsetCard(ZeroCells(st1.grid), ZeroCells(st.grid));
      ChosenCellSound(st1, order);
    }
  }

  lemma {:induction false} ChosenCellSound(st1: State, order: SetOrder)
    requires Wf(st1) && IsOrder(order) && Sound(st1) && SelectCell(st1).Some?
    requires TryValues(st1, SelectCell(st1).value, Ascending(At(st1.cands, SelectCell(st1).value)), order).Some?
    ensures Sound(TryValues(st1, SelectCell(st1).value, Ascending(At(st1.cands, SelectCell(st1).value)), order).value)
    decreases |ZeroCells(st1.grid)|, 1, 0
  {
    var x := SelectCell(st1).value;
    TryValuesSound(st1, x, Ascending(At(st1.cands, x)), order);
  }

  lemma {:induction false} TryValuesSound(st1: State, x: Cell, vals: seq<int>, order: SetOrder)
    requires Wf(st1) && IsOrder(order) && Sound(st1) && InGrid(x) && At(st1.grid, x) == 0
    requires forall p :: 0 <= p < |vals| ==> vals[p] in At(st1.cands, x)
    requires TryValues(st1, x, vals, order).Some?
    ensures Sound(TryValues(st1, x, vals, order).value)
    decreases |ZeroCells(st1.grid)|, 0, |vals|
  {
    TryValuesStep(st1, x, vals, order);
    if Branch(st1, x, vals[0], order).Some? {
      BranchSound(st1, x, vals[0], order);
    } else {
      TryValuesSound(st1, x, vals[1..], order);
    }
  }

  lemma {:induction false} BranchSound(st1: State, x: Cell, v: int, order: SetOrder)
    requires Wf(st1) && IsOrder(order) && Sound(st1) && InGrid(x) && At(st1.grid, x) == 0 && v in At(st1.cands, x)
    requires Branch(st1, x, v, order).Some?
    ensures Sound(Branch(st1, x, v, order).value)
    decreases |ZeroCells(st1.grid)|, 0, 0
  {
    var st2 := Assign(st1, x, v).value;
    AssignSound(st1, x, v, st2);
    ProperSubsetSmaller(ZeroCells(st2.grid), ZeroCells(st1.grid));
    SearchSound(st2, order);
  }
}
