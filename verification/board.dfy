/**
  The 9x9 board every stage of the solver works on: cell positions, the grid,
  the candidate matrix, the 27 regions (9 rows, 9 columns, 9 blocks) and the
  peer relation, together with the invariants the later modules talk about.

  A grid cell holds 0 for "empty" and a digit 1..9 otherwise; the candidate
  matrix holds, per cell, the set of digits still considered placeable there.
*/
module Board {

  datatype Option<T> = None | Some(value: T)

  /** A cell position; `row` and `col` are 0-based. */
  datatype Cell = Cell(row: int, col: int)

  type Grid = seq<seq<int>>
  type Cands = seq<seq<set<int>>>

  /** The grid and its candidate matrix, handed together from stage to stage. */
  datatype State = State(grid: Grid, cands: Cands)

  /** The digits 1 to 9, the values a solved cell may hold. */
  const Digits: set<int> := {1, 2, 3, 4, 5, 6, 7, 8, 9}

  lemma DigitsRange()
    ensures forall x :: x in Digits <==> 1 <= x <= 9
  {
  }

  /** No entry of `s` occurs twice. */
  ghost predicate Distinct(s: seq<int>) {
    forall p, q :: 0 <= p < |s| && 0 <= q < |s| && p != q ==> s[p] != s[q]
  }

  /**
    The order in which a loop visits the elements of a set of digits.
    Python does not fix the iteration order of a set, so the stages that
    iterate one take the order as a parameter.
  */
  type SetOrder = set<int> -> seq<int>

  /** `order` lists the elements of `s`, each exactly once. */
  ghost predicate Lists(order: SetOrder, s: set<int>) {
    Distinct(order(s)) && forall x :: x in order(s) <==> x in s
  }

  /** `order` visits every element of each set of digits exactly once. */
  ghost predicate IsOrder(order: SetOrder) {
    forall s :: s <= Digits ==> Lists(order, s)
  }

  predicate InGrid(a: Cell) {
    0 <= a.row < 9 && 0 <= a.col < 9
  }

  predicate Is9x9<T>(m: seq<seq<T>>) {
    |m| == 9 && forall i :: 0 <= i < 9 ==> |m[i]| == 9
  }

  function At<T>(m: seq<seq<T>>, a: Cell): T
    requires Is9x9(m) && InGrid(a)
  {
    m[a.row][a.col]
  }

  /** The matrix `m` with cell `a` overwritten by `x`: the value semantics of `m[i][j] = x`. */
  function Put<T>(m: seq<seq<T>>, a: Cell, x: T): (r: seq<seq<T>>)
    requires Is9x9(m) && InGrid(a)
    ensures Is9x9(r)
    ensures forall b :: InGrid(b) ==> At(r, b) == if b == a then x else At(m, b)
  {
    m[a.row := m[a.row][a.col := x]]
  }

  /** Every candidate set of a 9x9 matrix is a set of digits. */
  ghost predicate IsCands(c: Cands) {
    Is9x9(c) && forall a :: InGrid(a) ==> At(c, a) <= Digits
  }

  /** The shape every solver stage assumes of its state. */
  ghost predicate Wf(st: State) {
    Is9x9(st.grid) && IsCands(st.cands)
  }

  /** Two cells share a row, a column or a 3x3 block (a cell is its own peer). */
  predicate Peer(a: Cell, b: Cell) {
    || a.row == b.row
    || a.col == b.col
    || (a.row / 3 == b.row / 3 && a.col / 3 == b.col / 3)
  }

  /* ---------------------------------------------------------------------- */
  /* Regions                                                                 */
  /* ---------------------------------------------------------------------- */

  function RowCells(i: int): seq<Cell> {
    seq(9, k => Cell(i, k))
  }

  function ColCells(j: int): seq<Cell> {
    seq(9, k => Cell(k, j))
  }

  /** The block whose top-left cell is (bi, bj), listed row by row. */
  function BlockCells(bi: int, bj: int): seq<Cell> {
    seq(9, k => Cell(bi + k / 3, bj + k % 3))
  }

  /**
    The 27 regions in the order the hidden-single sweep visits them:
    row 0, column 0, row 1, column 1, ..., row 8, column 8, then the blocks
    with top-left corners (0,0), (0,3), (0,6), (3,0), ..., (6,6).
  */
  function Region(k: int): (r: seq<Cell>)
    requires 0 <= k < 27
    ensures |r| == 9 && forall p :: 0 <= p < 9 ==> InGrid(r[p])
  {
    if k < 18 then (if k % 2 == 0 then RowCells(k / 2) else ColCells(k / 2))
    else BlockCells(3 * ((k - 18) / 3), 3 * ((k - 18) % 3))
  }

  /** Sweep entries `2 * i` and `2 * i + 1` are row `i` and column `i`. */
  lemma RowColRegions(i: int)
    requires 0 <= i < 9
    ensures Region(2 * i) == RowCells(i) && Region(2 * i + 1) == ColCells(i)
  {
  }

  /** Sweep entry `18 + 3 * m + n` is the block with top-left corner `(3 * m, 3 * n)`. */
  lemma BlockRegion(m: int, n: int)
    requires 0 <= m < 3 && 0 <= n < 3
    ensures Region(18 + 3 * m + n) == BlockCells(3 * m, 3 * n)
  {
    BlockDiv(m, n);
  }

  /** Nine distinct, in-grid cells that are pairwise peers. */
  ghost predicate IsRegion(r: seq<Cell>) {
    && |r| == 9
    && (forall p :: 0 <= p < 9 ==> InGrid(r[p]))
    && (forall p, q :: 0 <= p < 9 && 0 <= q < 9 && p != q ==> r[p] != r[q] && Peer(r[p], r[q]))
  }

  lemma BlockDiv(m: int, t: int)
    requires 0 <= t < 3
    ensures (3 * m + t) / 3 == m && (3 * m + t) % 3 == t
  {
  }

  lemma BlockIsRegion(bi: int, bj: int)
    requires 0 <= bi < 9 && 0 <= bj < 9 && bi % 3 == 0 && bj % 3 == 0
    ensures IsRegion(BlockCells(bi, bj))
  {
    var r := BlockCells(bi, bj);
    forall p | 0 <= p < 9
      ensures InGrid(r[p]) && r[p].row / 3 == bi / 3 && r[p].col / 3 == bj / 3
    {
      BlockDiv(bi / 3, p / 3);
      BlockDiv(bj / 3, p % 3);
    }
    forall p, q | 0 <= p < 9 && 0 <= q < 9 && p != q
      ensures r[p] != r[q]
    {
      assert p == 3 * (p / 3) + p % 3 && q == 3 * (q / 3) + q % 3;
    }
  }

  /** Each of the 27 entries of the sweep is a region. */
  lemma SweepAreRegions()
    ensures forall k :: 0 <= k < 27 ==> IsRegion(Region(k))
  {
    forall k | 0 <= k < 27
      ensures IsRegion(Region(k))
    {
      if k >= 18 {
        var m := k - 18;
        assert Region(k) == BlockCells(3 * (m / 3), 3 * (m % 3));
        BlockIsRegion(3 * (m / 3), 3 * (m % 3));
      }
    }
  }

  lemma BlockPeersShareRegion(a: Cell, b: Cell) returns (k: int, p: int, q: int)
    requires InGrid(a) && InGrid(b)
    requires a.row / 3 == b.row / 3 && a.col / 3 == b.col / 3
    ensures 18 <= k < 27 && 0 <= p < 9 && 0 <= q < 9
    ensures |Region(k)| == 9
    ensures Region(k)[p] == a && Region(k)[q] == b
  {
    var m := 3 * (a.row / 3) + a.col / 3;
    BlockDiv(a.row / 3, a.col / 3);
    k, p, q := 18 + m, 3 * (a.row % 3) + a.col % 3, 3 * (b.row % 3) + b.col % 3;
    var r := BlockCells(3 * (a.row / 3), 3 * (a.col / 3));
    assert Region(k) == r;
    BlockDiv(a.row % 3, a.col % 3);
    BlockDiv(b.row % 3, b.col % 3);
    assert r[p] == Cell(3 * (a.row / 3) + a.row % 3, 3 * (a.col / 3) + a.col % 3);
    assert r[q] == Cell(3 * (b.row / 3) + b.row % 3, 3 * (b.col / 3) + b.col % 3);
  }

  /** Two peers always lie together in one of the 27 regions of the sweep. */
  lemma PeersShareRegion(a: Cell, b: Cell) returns (k: int, p: int, q: int)
    requires InGrid(a) && InGrid(b) && Peer(a, b)
    ensures 0 <= k < 27 && 0 <= p < 9 && 0 <= q < 9
    ensures |Region(k)| == 9
    ensures Region(k)[p] == a && Region(k)[q] == b
  {
    if a.row == b.row {
      k, p, q := 2 * a.row, a.col, b.col;
    } else if a.col == b.col {
      k, p, q := 2 * a.col + 1, a.row, b.row;
    } else {
      k, p, q := BlockPeersShareRegion(a, b);
    }
  }

  /* ---------------------------------------------------------------------- */
  /* Empty cells                                                             */
  /* ---------------------------------------------------------------------- */

  /** The empty cells of a grid; the search's termination measure is their number. */
  function ZeroCells(g: Grid): (z: set<Cell>)
    requires Is9x9(g)
    ensures forall a :: a in z <==> InGrid(a) && At(g, a) == 0
  {
    set i, j | 0 <= i < 9 && 0 <= j < 9 && g[i][j] == 0 :: Cell(i, j)
  }

  /** No cell of `g` is empty: the solved test of `realizar_cambios` and `solucionar_sudoku_avanzado`. */
  predicate NoZeros(g: Grid)
    requires Is9x9(g)
  {
    forall i :: 0 <= i < 9 ==> 0 !in g[i]
  }

  lemma NoZerosMeansNoEmptyCell(g: Grid)
    requires Is9x9(g)
    ensures NoZeros(g) <==> ZeroCells(g) == {}
  {
    if !NoZeros(g) {
      var i :| 0 <= i < 9 && 0 in g[i];
      var j :| 0 <= j < 9 && g[i][j] == 0;
      assert Cell(i, j) in ZeroCells(g);
    }
  }

  /** Writing a non-zero value empties nothing and fills the written cell. */
  lemma WriteFills(g: Grid, a: Cell, v: int)
    requires Is9x9(g) && InGrid(a) && v != 0
    ensures ZeroCells(Put(g, a, v)) == ZeroCells(g) - {a}
  {
  }

  lemma SubsetCard<T>(s: set<T>, t: set<T>)
    requires s <= t
    ensures |s| <= |t|
  {
    if s != t {
      ProperSubsetSmaller(s, t);
    }
  }

  lemma ProperSubsetSmaller<T>(x: set<T>, y: set<T>)
    requires x < y
    ensures |x| < |y|
  {
    assert y - x != {};
    assert y == x + (y - x);
    assert x * (y - x) == {};
  }

  /* ---------------------------------------------------------------------- */
  /* Invariants                                                              */
  /* ---------------------------------------------------------------------- */

  /** Some peer of `a` holds `v`. */
  ghost predicate Sees(g: Grid, a: Cell, v: int)
    requires Is9x9(g)
  {
    exists b :: InGrid(b) && Peer(a, b) && At(g, b) == v
  }

  /** The digits that can legally go in cell `a`: those no peer holds. */
  ghost function Legal(g: Grid, a: Cell): set<int>
    requires Is9x9(g)
  {
    set v | v in Digits && !Sees(g, a, v)
  }

  /** No two distinct peers hold the same non-zero value. */
  ghost predicate NoConflict(g: Grid)
    requires Is9x9(g)
  {
    forall a, b :: InGrid(a) && InGrid(b) && a != b && Peer(a, b) && At(g, a) != 0 ==> At(g, a) != At(g, b)
  }

  /** The candidate invariant: every empty cell's set is exactly its legal digits. */
  ghost predicate CandInv(st: State)
    requires Wf(st)
  {
    forall a :: InGrid(a) && At(st.grid, a) == 0 ==> At(st.cands, a) == Legal(st.grid, a)
  }

  /** The weaker half of the invariant: no empty cell lists an illegal digit. */
  ghost predicate CandSound(st: State)
    requires Wf(st)
  {
    forall a :: InGrid(a) && At(st.grid, a) == 0 ==> At(st.cands, a) <= Legal(st.grid, a)
  }

  ghost predicate Sound(st: State)
    requires Wf(st)
  {
    NoConflict(st.grid) && CandSound(st)
  }

  /**
    `st2` is reachable from `st` by writing candidates into empty cells and
    shrinking candidate sets: non-zero cells keep their value, every changed
    cell holds one of its candidates in `st`, and no candidate set grows.
  */
  ghost predicate Refines(st: State, st2: State)
    requires Wf(st) && Wf(st2)
  {
    forall a :: InGrid(a) ==>
      && (At(st.grid, a) != 0 ==> At(st2.grid, a) == At(st.grid, a))
      && (At(st2.grid, a) != At(st.grid, a) ==> At(st2.grid, a) in At(st.cands, a))
      && At(st2.cands, a) <= At(st.cands, a)
  }

  lemma RefinesTrans(s1: State, s2: State, s3: State)
    requires Wf(s1) && Wf(s2) && Wf(s3)
    requires Refines(s1, s2) && Refines(s2, s3)
    ensures Refines(s1, s3)
  {
  }

  /**
    `sorted(s)` for a set of digits: its elements in strictly ascending order.
  */
  function Ascending(s: set<int>): (r: seq<int>)
    requires s <= Digits
    ensures forall x :: x in r <==> x in s
    ensures forall p, q :: 0 <= p < q < |r| ==> r[p] < r[q]
  {
    DigitsRange();
    AscendingFrom(s, 1)
  }

  function AscendingFrom(s: set<int>, d: int): (r: seq<int>)
    requires s <= Digits && 1 <= d <= 10
    ensures forall x :: x in r <==> x in s && x >= d
    ensures forall p, q :: 0 <= p < q < |r| ==> r[p] < r[q]
    ensures forall p :: 0 <= p < |r| ==> r[p] >= d
    decreases 10 - d
  {
    if d == 10 then []
    else if d in s then [d] + AscendingFrom(s, d + 1)
    else AscendingFrom(s, d + 1)
  }

  /** The ascending order, extended to sets with non-digits by ignoring those. */
  function AscendingOrder(s: set<int>): (r: seq<int>)
    ensures forall x :: x in r <==> x in s && x in Digits
  {
    Ascending(s * Digits)
  }

  /** Visiting the digits in ascending order is one order the model admits. */
  lemma AscendingIsOrder()
    ensures IsOrder(AscendingOrder)
  {
    forall s | s <= Digits
      ensures Lists(AscendingOrder, s)
    {
      var r := AscendingOrder(s);
      forall p, q | 0 <= p < |r| && 0 <= q < |r| && p != q
        ensures r[p] != r[q]
      {
        if p > q {
          assert r[q] < r[p];
        }
      }
    }
  }
}
