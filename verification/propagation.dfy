/**
  The propagator `aplicar_logica`: naked singles to a fixed point, then one
  hidden-single sweep over the 27 regions, repeated while either made an
  assignment. It fails on contradiction no. 1 (raised by the candidate
  update), no. 2 (a missing digit with no cell in its region) and no. 3
  (an empty cell listing a digit its region already holds).

  The in-place loops of `aplicar_logica` become functions that thread a `State`
  and report whether they placed anything.
*/
module Propagation {
  import opened Board
  import opened Candidates

  /** The outcome of a pass: a contradiction, or the new state and whether it placed a digit. */
  datatype Pass = Contradiction | Done(state: State, progress: bool)

  /* ---------------------------------------------------------------------- */
  /* Naked singles                                                           */
  /* ---------------------------------------------------------------------- */

  /**
    The cell at row-major position `k`, the order of the `for i: for j:`
    scans of `aplicar_logica` and `realizar_cambios`.
  */
  function CellOf(k: int): Cell {
    Cell(k / 9, k % 9)
  }

  lemma RowMajor(a: Cell)
    requires InGrid(a)
    ensures 0 <= 9 * a.row + a.col < 81 && CellOf(9 * a.row + a.col) == a
  {
  }

  predicate IsNakedSingle(st: State, a: Cell)
    requires Is9x9(st.grid) && Is9x9(st.cands) && InGrid(a)
  {
    At(st.grid, a) == 0 && |At(st.cands, a)| == 1
  }

  /** No empty cell has exactly one candidate. */
  ghost predicate NakedFixpoint(st: State)
    requires Wf(st)
  {
    forall a :: InGrid(a) ==> !IsNakedSingle(st, a)
  }

  /** The only element of a one-element set of digits, as taken by the naked-single pass. */
  function TheElement(s: set<int>): (v: int)
    requires s <= Digits && |s| == 1
    ensures s == {v}
  {
    OneElementListed(s);
    var v := Ascending(s)[0];
    assert |s - {v}| == 0;
    v
  }

  lemma OneElementListed(s: set<int>)
    requires s <= Digits && s != {}
    ensures |Ascending(s)| > 0
  {
    var x :| x in s;
    assert x in Ascending(s);
  }

  /**
    Write `v` into cell `a` and run the candidate update for it, as both
    kinds of single do; `None` when the update empties an empty peer.
  */
  function Assign(st: State, a: Cell, v: int): (r: Option<State>)
    requires Wf(st) && InGrid(a) && v in Digits
    ensures r.Some? <==>
      forall b :: InGrid(b) && Peer(a, b) && b != a && At(st.grid, b) == 0 ==> At(st.cands, b) - {v} != {}
    ensures r.Some? ==> Wf(r.value) && r.value.grid == Put(st.grid, a, v)
    ensures r.Some? ==> forall b :: InGrid(b) ==> At(r.value.cands, b) <= At(st.cands, b)
    ensures r.Some? ==> ZeroCells(r.value.grid) == ZeroCells(st.grid) - {a}
  {
    var g := Put(st.grid, a, v);
    match UpdateCandidates(g, a, st.cands)
    case None => None
    case Some(c) =>
      UpdateKeepsCands(g, a, st.cands);
      WriteFills(st.grid, a, v);
      Some(State(g, c))
  }

  /**
    One pass of the naked-single loop from position `k` on: each empty cell
    with a single candidate gets it, and the update runs at once, so later
    cells of the same pass see the new state.
  */
  function NakedScan(st: State, k: int): (r: Pass)
    requires Wf(st) && 0 <= k <= 81
    ensures r.Done? ==> Wf(r.state) && Refines(st, r.state)
    ensures r.Done? ==> ZeroCells(r.state.grid) <= ZeroCells(st.grid)
    ensures r.Done? && r.progress ==> ZeroCells(r.state.grid) < ZeroCells(st.grid)
    ensures r.Done? && !r.progress ==> r.state == st
    ensures r == Done(st, false) <==> forall k' :: k <= k' < 81 ==> !IsNakedSingle(st, CellOf(k'))
    decreases 81 - k
  {
    if k == 81 then Done(st, false)
    else
      var a := CellOf(k);
      if IsNakedSingle(st, a) then
        var v := TheElement(At(st.cands, a));
        match Assign(st, a, v)
        case None => Contradiction
        case Some(st1) =>
          var r := NakedScan(st1, k + 1);
          if r.Contradiction? then Contradiction
          else
            RefinesTrans(st, st1, r.state);
            Done(r.state, true)
      else
        NakedScan(st, k + 1)
  }

  /** The pass past the last position changes nothing. */
  lemma NakedScanEnd(st: State)
    requires Wf(st)
    ensures NakedScan(st, 81) == Done(st, false)
  {
  }

  /** A position without a naked single leaves the pass to the next position. */
  lemma NakedScanSkip(st: State, k: int)
    requires Wf(st) && 0 <= k < 81 && !IsNakedSingle(st, CellOf(k))
    ensures NakedScan(st, k) == NakedScan(st, k + 1)
  {
  }

  /**
    A naked single at a position of a successful pass: its only candidate
    `v` is written, the update succeeds, and the pass goes on from the new
    state `st1` to the same result.
  */
  lemma NakedScanTake(st: State, k: int) returns (v: int, st1: State)
    requires Wf(st) && 0 <= k < 81 && IsNakedSingle(st, CellOf(k)) && NakedScan(st, k).Done?
    ensures At(st.cands, CellOf(k)) == {v} && v in Digits
    ensures Assign(st, CellOf(k), v) == Some(st1) && Wf(st1)
    ensures NakedScan(st1, k + 1).Done? && NakedScan(st1, k + 1).state == NakedScan(st, k).state
  {
    v := TheElement(At(st.cands, CellOf(k)));
    st1 := Assign(st, CellOf(k), v).value;
  }

  lemma NakedScanFromStart(st: State)
    requires Wf(st)
    ensures NakedScan(st, 0) == Done(st, false) <==> NakedFixpoint(st)
  {
    forall a | InGrid(a)
      ensures CellOf(9 * a.row + a.col) == a
    {
      RowMajor(a);
    }
  }

  /** The naked-single loop: repeat passes until one places nothing. */
  function NakedLoop(st: State): (r: Pass)
    requires Wf(st)
    ensures r.Done? ==> Wf(r.state) && Refines(st, r.state) && NakedFixpoint(r.state)
    ensures r.Done? ==> ZeroCells(r.state.grid) <= ZeroCells(st.grid)
    ensures r.Done? && r.progress ==> ZeroCells(r.state.grid) < ZeroCells(st.grid)
    ensures r.Done? && !r.progress ==> r.state == st
    ensures r == Done(st, false) <==> NakedFixpoint(st)
    decreases |ZeroCells(st.grid)|
  {
    NakedScanFromStart(st);
    match NakedScan(st, 0)
    case Contradiction => Contradiction
    case Done(st1, placed) =>
      if placed then
        ProperSubsetSmaller(ZeroCells(st1.grid), ZeroCells(st.grid));
        var r := NakedLoop(st1);
        if r.Contradiction? then Contradiction
        else
          RefinesTrans(st, st1, r.state);
          Done(r.state, true)
      else
        Done(st1, false)
  }

  /* ---------------------------------------------------------------------- */
  /* Hidden singles                                                          */
  /* ---------------------------------------------------------------------- */

  ghost predicate InGridCells(r: seq<Cell>) {
    forall p :: 0 <= p < |r| ==> InGrid(r[p])
  }

  /** `presentes`: the non-zero values of the region. */
  function Present(g: Grid, r: seq<Cell>): set<int>
    requires Is9x9(g) && InGridCells(r)
  {
    (set p | 0 <= p < |r| :: At(g, r[p])) - {0}
  }

  /** `faltan`: the digits the region does not hold yet. */
  function Missing(g: Grid, r: seq<Cell>): (m: set<int>)
    requires Is9x9(g) && InGridCells(r)
    ensures m <= Digits
    ensures forall d :: d in m <==> d in Digits && forall p :: 0 <= p < |r| ==> At(g, r[p]) != d
  {
    Digits - Present(g, r)
  }

  /** The test behind contradiction no. 3: every empty cell's candidates are missing digits. */
  predicate CandsWithinMissing(st: State, r: seq<Cell>)
    requires Wf(st) && InGridCells(r)
  {
    forall p :: 0 <= p < |r| && At(st.grid, r[p]) == 0 ==> At(st.cands, r[p]) <= Missing(st.grid, r)
  }

  /** `contador[d]`: the empty cells of the region that list `d`, in region order. */
  function Sites(st: State, r: seq<Cell>, d: int): (s: seq<Cell>)
    requires Wf(st) && InGridCells(r)
    ensures InGridCells(s) && |s| <= |r|
    ensures forall x :: x in s <==> x in r && InGrid(x) && At(st.grid, x) == 0 && d in At(st.cands, x)
  {
    if r == [] then []
    else
      var rest := Sites(st, r[1..], d);
      if At(st.grid, r[0]) == 0 && d in At(st.cands, r[0]) then [r[0]] + rest else rest
  }

  /** A region on which the hidden-single step neither fails nor places anything. */
  ghost predicate RegionStable(st: State, r: seq<Cell>)
    requires Wf(st) && InGridCells(r)
  {
    && CandsWithinMissing(st, r)
    && forall d :: d in Missing(st.grid, r) ==> |Sites(st, r, d)| >= 2
  }

  /** The only site of a digit is an empty cell of the snapshot that lists it. */
  lemma SingleSite(st0: State, r: seq<Cell>, d: int)
    requires Wf(st0) && InGridCells(r) && |Sites(st0, r, d)| == 1
    ensures Sites(st0, r, d) == [Sites(st0, r, d)[0]]
    ensures var q := Sites(st0, r, d)[0];
      InGrid(q) && At(st0.grid, q) == 0 && d in At(st0.cands, q) && d in Digits
  {
    var q := Sites(st0, r, d)[0];
    assert q in Sites(st0, r, d);
  }

  /** One hidden-single placement keeps the invariants of the digit loop. */
  lemma PlaceStep(st0: State, r: seq<Cell>, st: State, d: int, q: Cell, st1: State)
    requires Wf(st0) && Wf(st) && InGridCells(r)
    requires Refines(st0, st) && ZeroCells(st.grid) <= ZeroCells(st0.grid)
    requires forall x :: InGrid(x) && At(st.grid, x) != At(st0.grid, x) ==> Sites(st0, r, At(st.grid, x)) == [x]
    requires Sites(st0, r, d) == [q] && InGrid(q) && At(st0.grid, q) == 0 && d in At(st0.cands, q) && d in Digits
    requires Assign(st, q, d) == Some(st1)
    ensures Wf(st1) && Refines(st0, st1)
    ensures ZeroCells(st1.grid) <= ZeroCells(st.grid) && ZeroCells(st1.grid) < ZeroCells(st0.grid)
    ensures forall x :: InGrid(x) && At(st1.grid, x) != At(st0.grid, x) ==> Sites(st0, r, At(st1.grid, x)) == [x]
  {
    assert q in ZeroCells(st0.grid) && q !in ZeroCells(st1.grid);
  }

  /**
    The digit loop of `colocar_hidden`: for each missing digit, in the order
    `ds` lists them, look at its cells in the snapshot `st0` taken before the loop;
    none is contradiction no. 2, exactly one means the digit is written there
    (in the current state `st`) and propagated. A cell that is the only
    place for two digits is written twice.
  */
  function PlaceDigits(st0: State, r: seq<Cell>, st: State, ds: seq<int>): (res: Pass)
    requires Wf(st0) && Wf(st) && InGridCells(r)
    requires Refines(st0, st) && ZeroCells(st.grid) <= ZeroCells(st0.grid)
    requires forall x :: InGrid(x) && At(st.grid, x) != At(st0.grid, x) ==> Sites(st0, r, At(st.grid, x)) == [x]
    ensures res.Done? ==> Wf(res.state) && Refines(st0, res.state)
    ensures res.Done? ==> ZeroCells(res.state.grid) <= ZeroCells(st.grid)
    ensures res.Done? && res.progress ==> ZeroCells(res.state.grid) < ZeroCells(st0.grid)
    ensures res.Done? && !res.progress ==> res.state == st
    ensures res.Done? ==> forall x :: InGrid(x) && At(res.state.grid, x) != At(st0.grid, x) ==>
      Sites(st0, r, At(res.state.grid, x)) == [x]
    decreases |ds|
  {
    if ds == [] then Done(st, false)
    else
      var d := ds[0];
      var s := Sites(st0, r, d);
      if |s| == 0 then Contradiction
      else if |s| == 1 then
        var q := s[0];
        SingleSite(st0, r, d);
        match Assign(st, q, d)
        case None => Contradiction
        case Some(st1) =>
          PlaceStep(st0, r, st, d, q, st1);
          var res := PlaceDigits(st0, r, st1, ds[1..]);
          if res.Contradiction? then Contradiction
          else Done(res.state, true)
      else
        PlaceDigits(st0, r, st, ds[1..])
  }

  /** A digit of the loop without any site is contradiction no. 2. */
  lemma {:induction false} PlaceDigitsNoSite(st0: State, r: seq<Cell>, st: State, ds: seq<int>, p: int)
    requires Wf(st0) && Wf(st) && InGridCells(r)
    requires Refines(st0, st) && ZeroCells(st.grid) <= ZeroCells(st0.grid)
    requires forall x :: InGrid(x) && At(st.grid, x) != At(st0.grid, x) ==> Sites(st0, r, At(st.grid, x)) == [x]
    requires 0 <= p < |ds| && Sites(st0, r, ds[p]) == []
    ensures PlaceDigits(st0, r, st, ds) == Contradiction
    decreases |ds|
  {
    var d := ds[0];
    var s := Sites(st0, r, d);
    if p > 0 && |s| == 1 {
      var q := s[0];
      SingleSite(st0, r, d);
      if Assign(st, q, d).Some? {
        var st1 := Assign(st, q, d).value;
        PlaceStep(st0, r, st, d, q, st1);
        assert ds[1..][p - 1] == ds[p];
        PlaceDigitsNoSite(st0, r, st1, ds[1..], p - 1);
      }
    } else if p > 0 && |s| >= 2 {
      assert ds[1..][p - 1] == ds[p];
      PlaceDigitsNoSite(st0, r, st, ds[1..], p - 1);
    }
  }

  /** On success the digit loop has filled the only site of every digit it visits that has one. */
  lemma {:induction false} PlaceDigitsFills(st0: State, r: seq<Cell>, st: State, ds: seq<int>)
    requires Wf(st0) && Wf(st) && InGridCells(r)
    requires Refines(st0, st) && ZeroCells(st.grid) <= ZeroCells(st0.grid)
    requires forall x :: InGrid(x) && At(st.grid, x) != At(st0.grid, x) ==> Sites(st0, r, At(st.grid, x)) == [x]
    ensures PlaceDigits(st0, r, st, ds).Done? ==> forall d :: d in ds && |Sites(st0, r, d)| == 1 ==>
      At(PlaceDigits(st0, r, st, ds).state.grid, Sites(st0, r, d)[0]) != 0
    decreases |ds|
  {
    if ds != [] {
      var d := ds[0];
      var s := Sites(st0, r, d);
      if |s| == 1 {
        var q := s[0];
        SingleSite(st0, r, d);
        if Assign(st, q, d).Some? {
          var st1 := Assign(st, q, d).value;
          PlaceStep(st0, r, st, d, q, st1);
          PlaceDigitsFills(st0, r, st1, ds[1..]);
        }
      } else {
        PlaceDigitsFills(st0, r, st, ds[1..]);
      }
    }
  }

  /** The digit loop leaves the state alone exactly when every digit has at least two sites. */
  lemma {:induction false} PlaceDigitsUnchanged(st0: State, r: seq<Cell>, st: State, ds: seq<int>)
    requires Wf(st0) && Wf(st) && InGridCells(r)
    requires Refines(st0, st) && ZeroCells(st.grid) <= ZeroCells(st0.grid)
    requires forall x :: InGrid(x) && At(st.grid, x) != At(st0.grid, x) ==> Sites(st0, r, At(st.grid, x)) == [x]
    ensures PlaceDigits(st0, r, st, ds) == Done(st, false) <==> forall p :: 0 <= p < |ds| ==> |Sites(st0, r, ds[p])| >= 2
    decreases |ds|
  {
    if ds != [] && |Sites(st0, r, ds[0])| >= 2 {
      PlaceDigitsUnchanged(st0, r, st, ds[1..]);
      assert forall p :: 1 <= p < |ds| ==> ds[p] == ds[1..][p - 1];
    }
  }

  /**
    `colocar_hidden` on one region: fail on contradiction no. 3, then run
    the digit loop over the missing digits in the iteration order of `faltan`.
    On success every missing digit with a single site has that cell filled.
  */
  function PlaceHidden(st: State, r: seq<Cell>, order: SetOrder): (res: Pass)
    requires Wf(st) && InGridCells(r) && IsOrder(order)
    ensures !CandsWithinMissing(st, r) ==> res == Contradiction
    ensures res.Done? ==> Wf(res.state) && Refines(st, res.state)
    ensures res.Done? ==> ZeroCells(res.state.grid) <= ZeroCells(st.grid)
    ensures res.Done? && res.progress ==> ZeroCells(res.state.grid) < ZeroCells(st.grid)
    ensures res.Done? && !res.progress ==> res.state == st
    ensures res.Done? ==> forall x :: InGrid(x) && At(res.state.grid, x) != At(st.grid, x) ==>
      Sites(st, r, At(res.state.grid, x)) == [x]
    ensures res.Done? ==> forall d :: d in Missing(st.grid, r) && |Sites(st, r, d)| == 1 ==>
      At(res.state.grid, Sites(st, r, d)[0]) != 0
  {
    if !CandsWithinMissing(st, r) then Contradiction
    else
      var ds := order(Missing(st.grid, r));
      assert Lists(order, Missing(st.grid, r));
      PlaceDigitsFills(st, r, st, ds);
      PlaceDigits(st, r, st, ds)
  }

  /** A missing digit with no place in the region is contradiction no. 2. */
  lemma PlaceHiddenNoSite(st: State, r: seq<Cell>, order: SetOrder, d: int)
    requires Wf(st) && InGridCells(r) && IsOrder(order) && d in Missing(st.grid, r) && Sites(st, r, d) == []
    ensures PlaceHidden(st, r, order) == Contradiction
  {
    if CandsWithinMissing(st, r) {
      var ds := order(Missing(st.grid, r));
      assert Lists(order, Missing(st.grid, r));
      var p :| 0 <= p < |ds| && ds[p] == d;
      PlaceDigitsNoSite(st, r, st, ds, p);
    }
  }

  /** `colocar_hidden` leaves the state alone exactly when the region is stable. */
  lemma PlaceHiddenUnchanged(st: State, r: seq<Cell>, order: SetOrder)
    requires Wf(st) && InGridCells(r) && IsOrder(order)
    ensures PlaceHidden(st, r, order) == Done(st, false) <==> RegionStable(st, r)
  {
    if CandsWithinMissing(st, r) {
      PlaceDigitsUnchanged(st, r, st, order(Missing(st.grid, r)));
      AmbiguousListed(st, r, order);
    }
  }

  /** Every missing digit has two sites exactly when every digit of the iteration has. */
  lemma AmbiguousListed(st: State, r: seq<Cell>, order: SetOrder)
    requires Wf(st) && InGridCells(r) && IsOrder(order)
    ensures var ds := order(Missing(st.grid, r));
      (forall p :: 0 <= p < |ds| ==> |Sites(st, r, ds[p])| >= 2)
      <==> (forall d :: d in Missing(st.grid, r) ==> |Sites(st, r, d)| >= 2)
  {
    assert Lists(order, Missing(st.grid, r));
  }

  /** Every changed cell of a hidden-single step lies in the region, held an empty cell, and got a digit. */
  lemma HiddenWritesInRegion(st: State, r: seq<Cell>, order: SetOrder)
    requires Wf(st) && InGridCells(r) && IsOrder(order) && PlaceHidden(st, r, order).Done?
    ensures forall x :: InGrid(x) && At(PlaceHidden(st, r, order).state.grid, x) != At(st.grid, x) ==>
      x in r && At(st.grid, x) == 0 && At(PlaceHidden(st, r, order).state.grid, x) in At(st.cands, x)
  {
    var st2 := PlaceHidden(st, r, order).state;
    forall x | InGrid(x) && At(st2.grid, x) != At(st.grid, x)
      ensures x in r
    {
      assert x in Sites(st, r, At(st2.grid, x));
    }
  }

  /** Every region of the sweep from position `k` on is stable. */
  ghost predicate StableFrom(st: State, k: int)
    requires Wf(st) && 0 <= k <= 27
    decreases 27 - k
  {
    k == 27 || (InGridCells(Region(k)) && RegionStable(st, Region(k)) && StableFrom(st, k + 1))
  }

  lemma StableFromMeaning(st: State, k: int)
    requires Wf(st) && 0 <= k <= 27
    ensures StableFrom(st, k) <==> forall k' :: k <= k' < 27 ==> InGridCells(Region(k')) && RegionStable(st, Region(k'))
    decreases 27 - k
  {
    if k < 27 {
      StableFromMeaning(st, k + 1);
      StableFromStep(st, k);
    }
  }

  /** One step of the sweep's stability predicate: region `k`, then the rest. */
  lemma StableFromStep(st: State, k: int)
    requires Wf(st) && 0 <= k < 27
    ensures (forall k' :: k <= k' < 27 ==> InGridCells(Region(k')) && RegionStable(st, Region(k'))) <==>
      InGridCells(Region(k)) && RegionStable(st, Region(k)) &&
      forall k' :: k + 1 <= k' < 27 ==> InGridCells(Region(k')) && RegionStable(st, Region(k'))
  {
  }

  /** A hidden-single sweep would neither fail nor place anything. */
  ghost predicate HiddenFixpoint(st: State)
    requires Wf(st)
  {
    StableFrom(st, 0)
  }

  /** The hidden-single sweep over `Region(k..)`, each region seeing the state the previous one left. */
  function SweepFrom(st: State, k: int, order: SetOrder): (res: Pass)
    requires Wf(st) && 0 <= k <= 27 && IsOrder(order)
    ensures res.Done? ==> Wf(res.state) && Refines(st, res.state)
    ensures res.Done? ==> ZeroCells(res.state.grid) <= ZeroCells(st.grid)
    ensures res.Done? && res.progress ==> ZeroCells(res.state.grid) < ZeroCells(st.grid)
    ensures res.Done? && !res.progress ==> res.state == st
    decreases 27 - k
  {
    if k == 27 then Done(st, false)
    else
      match PlaceHidden(st, Region(k), order)
      case Contradiction => Contradiction
      case Done(st1, p1) =>
        match SweepFrom(st1, k + 1, order)
        case Contradiction => Contradiction
        case Done(st2, p2) =>
          RefinesTrans(st, st1, st2);
          Done(st2, p1 || p2)
  }

  /** The sweep from region `k` on leaves the state alone exactly when those regions are stable. */
  lemma {:induction false} SweepFromUnchanged(st: State, k: int, order: SetOrder)
    requires Wf(st) && 0 <= k <= 27 && IsOrder(order)
    ensures SweepFrom(st, k, order) == Done(st, false) <==> StableFrom(st, k)
    decreases 27 - k
  {
    if k < 27 {
      PlaceHiddenUnchanged(st, Region(k), order);
      SweepFromStep(st, k, order);
      if PlaceHidden(st, Region(k), order) == Done(st, false) {
        SweepFromUnchanged(st, k + 1, order);
      }
    }
  }

  /** One region of the sweep: a region left alone passes the sweep on, any other outcome shows up in the result. */
  lemma SweepFromStep(st: State, k: int, order: SetOrder)
    requires Wf(st) && 0 <= k < 27 && IsOrder(order)
    ensures InGridCells(Region(k))
    ensures PlaceHidden(st, Region(k), order) == Done(st, false) ==> SweepFrom(st, k, order) == SweepFrom(st, k + 1, order)
    ensures PlaceHidden(st, Region(k), order) != Done(st, false) ==> SweepFrom(st, k, order) != Done(st, false)
  {
    var h := PlaceHidden(st, Region(k), order);
    if h.Contradiction? {
      assert SweepFrom(st, k, order) == Contradiction;
    } else {
      var t := SweepFrom(h.state, k + 1, order);
      assert SweepFrom(st, k, order) == if t.Contradiction? then Contradiction else Done(t.state, h.progress || t.progress);
      if h != Done(st, false) {
        assert h.progress;
      }
    }
  }

  /**
    `aplicar_logica`: naked singles to their fixed point, one hidden-single
    sweep, and again while either placed a digit. On success no empty cell
    has a single candidate and every region is stable.
  */
  function ApplyLogic(st: State, order: SetOrder): (r: Option<State>)
    requires Wf(st) && IsOrder(order)
    ensures r.Some? ==> Wf(r.value) && Refines(st, r.value)
    ensures r.Some? ==> ZeroCells(r.value.grid) <= ZeroCells(st.grid)
    ensures r.Some? ==> NakedFixpoint(r.value) && HiddenFixpoint(r.value)
    decreases |ZeroCells(st.grid)|
  {
    match NakedLoop(st)
    case Contradiction => None
    case Done(st1, p1) =>
      SweepFromUnchanged(st1, 0, order);
      match SweepFrom(st1, 0, order)
      case Contradiction => None
      case Done(st2, p2) =>
        if p1 || p2 then
          ProperSubsetSmaller(ZeroCells(st2.grid), ZeroCells(st.grid));
          var r := ApplyLogic(st2, order);
          if r.Some? then
            RefinesTrans(st, st1, st2);
            RefinesTrans(st, st2, r.value);
            r
          else r
        else
          Some(st2)
  }

  /* ---------------------------------------------------------------------- */
  /* Fixed points                                                            */
  /* ---------------------------------------------------------------------- */

  /** A state is left unchanged by the propagator exactly when it is a fixed point of both passes. */
  lemma ApplyLogicStable(st: State, order: SetOrder)
    requires Wf(st) && IsOrder(order)
    ensures ApplyLogic(st, order) == Some(st) <==> NakedFixpoint(st) && HiddenFixpoint(st)
  {
    SweepFromUnchanged(st, 0, order);
  }

  /** Running the propagator on its own output changes nothing. */
  lemma ApplyLogicIdempotent(st: State, order: SetOrder)
    requires Wf(st) && IsOrder(order) && ApplyLogic(st, order).Some?
    ensures ApplyLogic(ApplyLogic(st, order).value, order) == ApplyLogic(st, order)
  {
    ApplyLogicStable(ApplyLogic(st, order).value, order);
  }
}
