/**
  The grid validator (`comprobar_sudoku`): a 9x9 shape, every value in 0..9,
  and no row, column or 3x3 block holding the same non-zero digit twice.

  `comprobar_sudoku` detects a repeat by comparing the length of a region's list of
  non-zero values with the size of the set of those values; `Repeats` keeps
  that test and `RepeatsMeaning` proves it equivalent to "two positions hold
  the same non-zero value".
*/
module Validator {
  import opened Board

  /* ---------------------------------------------------------------------- */
  /* Specification                                                           */
  /* ---------------------------------------------------------------------- */

  ghost predicate InRange(g: Grid)
    requires Is9x9(g)
  {
    forall a :: InGrid(a) ==> 0 <= At(g, a) <= 9
  }

  /** What the validator accepts: shape, value range, and no two peers sharing a digit. */
  ghost predicate Valid(g: Grid) {
    Is9x9(g) && InRange(g) && NoConflict(g)
  }

  /** A filled-in sudoku: valid and without empty cells. */
  ghost predicate Solved(g: Grid) {
    Valid(g) && NoZeros(g)
  }

  /** No two positions of region `r` hold the same non-zero value. */
  ghost predicate RegionOk(g: Grid, r: seq<Cell>)
    requires Is9x9(g)
  {
    forall p, q ::
      0 <= p < |r| && 0 <= q < |r| && p != q && InGrid(r[p]) && InGrid(r[q]) && At(g, r[p]) != 0
      ==> At(g, r[p]) != At(g, r[q])
  }

  lemma RegionOkOfNoConflict(g: Grid, k: int)
    requires Is9x9(g) && NoConflict(g) && 0 <= k < 27
    ensures RegionOk(g, Region(k))
  {
    SweepAreRegions();
  }

  /** No conflict anywhere exactly when each of the 27 regions is free of repeats. */
  lemma NoConflictByRegions(g: Grid)
    requires Is9x9(g)
    ensures NoConflict(g) <==> forall k :: 0 <= k < 27 ==> RegionOk(g, Region(k))
  {
    SweepAreRegions();
    if forall k :: 0 <= k < 27 ==> RegionOk(g, Region(k)) {
      forall a, b | InGrid(a) && InGrid(b) && a != b && Peer(a, b) && At(g, a) != 0
        ensures At(g, a) != At(g, b)
      {
        var k, p, q := PeersShareRegion(a, b);
        assert RegionOk(g, Region(k));
      }
    } else {
      var k :| 0 <= k < 27 && !RegionOk(g, Region(k));
      if NoConflict(g) {
        RegionOkOfNoConflict(g, k);
        assert false;
      }
    }
  }

  /* ---------------------------------------------------------------------- */
  /* The list/set duplicate test                                             */
  /* ---------------------------------------------------------------------- */

  /** The non-zero entries of `s`, in their order. */
  function NonZero(s: seq<int>): (r: seq<int>)
    ensures forall x :: x in r <==> x in s && x != 0
  {
    if s == [] then []
    else if s[0] != 0 then [s[0]] + NonZero(s[1..])
    else NonZero(s[1..])
  }

  /** The values occurring in `s`. */
  function Elems(s: seq<int>): set<int> {
    set x | x in s
  }

  /**
    The repeat test of `comprobar_sudoku`: the non-zero values of a region
    are more than the distinct ones.
  */
  predicate Repeats(s: seq<int>) {
    |NonZero(s)| != |Elems(NonZero(s))|
  }

  ghost predicate NoRepeatedDigit(s: seq<int>) {
    forall p, q :: 0 <= p < |s| && 0 <= q < |s| && p != q && s[p] != 0 ==> s[p] != s[q]
  }

  lemma DistinctCons(x: int, t: seq<int>)
    ensures Distinct([x] + t) <==> x !in t && Distinct(t)
  {
    var m := [x] + t;
    if Distinct(m) {
      forall p, q | 0 <= p < |t| && 0 <= q < |t| && p != q
        ensures t[p] != t[q]
      {
        assert m[p + 1] == t[p] && m[q + 1] == t[q];
      }
      forall q | 0 <= q < |t|
        ensures t[q] != x
      {
        assert m[q + 1] == t[q] && m[0] == x;
      }
    }
    if x !in t && Distinct(t) {
      forall p, q | 0 <= p < |m| && 0 <= q < |m| && p != q
        ensures m[p] != m[q]
      {
        if p == 0 {
          assert m[q] == t[q - 1];
        } else if q == 0 {
          assert m[p] == t[p - 1];
        } else {
          assert m[p] == t[p - 1] && m[q] == t[q - 1];
        }
      }
    }
  }

  lemma NoRepeatedCons(x: int, t: seq<int>)
    ensures NoRepeatedDigit([x] + t) <==> (x != 0 ==> x !in t) && NoRepeatedDigit(t)
  {
    var m := [x] + t;
    if NoRepeatedDigit(m) {
      forall p, q | 0 <= p < |t| && 0 <= q < |t| && p != q && t[p] != 0
        ensures t[p] != t[q]
      {
        assert m[p + 1] == t[p] && m[q + 1] == t[q];
      }
      forall q | 0 <= q < |t| && x != 0
        ensures t[q] != x
      {
        assert m[q + 1] == t[q] && m[0] == x;
      }
    }
    if (x != 0 ==> x !in t) && NoRepeatedDigit(t) {
      forall p, q | 0 <= p < |m| && 0 <= q < |m| && p != q && m[p] != 0
        ensures m[p] != m[q]
      {
        if p == 0 {
          assert m[q] == t[q - 1];
        } else if q == 0 {
          assert m[p] == t[p - 1];
        } else {
          assert m[p] == t[p - 1] && m[q] == t[q - 1];
        }
      }
    }
  }

  /** A list has as many distinct elements as entries exactly when no entry repeats. */
  lemma {:induction false} CardElems(s: seq<int>)
    ensures |Elems(s)| <= |s|
    ensures |Elems(s)| == |s| <==> Distinct(s)
  {
    if s != [] {
      var t := s[1..];
      CardElems(t);
      assert s == [s[0]] + t;
      DistinctCons(s[0], t);
      assert Elems(s) == {s[0]} + Elems(t);
      if s[0] in t {
        assert Elems(s) == Elems(t);
      }
    }
  }

  lemma {:induction false} NonZeroDistinct(s: seq<int>)
    ensures Distinct(NonZero(s)) <==> NoRepeatedDigit(s)
  {
    if s != [] {
      var t := s[1..];
      NonZeroDistinct(t);
      assert s == [s[0]] + t;
      NoRepeatedCons(s[0], t);
      if s[0] != 0 {
        assert NonZero(s) == [s[0]] + NonZero(t);
        DistinctCons(s[0], NonZero(t));
      } else {
        assert NonZero(s) == NonZero(t);
      }
    }
  }

  /** The length test of `comprobar_sudoku` detects exactly a repeated non-zero value. */
  lemma RepeatsMeaning(s: seq<int>)
    ensures !Repeats(s) <==> NoRepeatedDigit(s)
  {
    CardElems(NonZero(s));
    NonZeroDistinct(s);
  }

  /** The values of a region, in the order its cells are listed. */
  function Values(g: Grid, r: seq<Cell>): (s: seq<int>)
    requires Is9x9(g) && forall p :: 0 <= p < |r| ==> InGrid(r[p])
    ensures |s| == |r| && forall p :: 0 <= p < |r| ==> s[p] == At(g, r[p])
  {
    seq(|r|, p requires 0 <= p < |r| => At(g, r[p]))
  }

  lemma RepeatsInRegion(g: Grid, r: seq<Cell>)
    requires Is9x9(g) && forall p :: 0 <= p < |r| ==> InGrid(r[p])
    ensures !Repeats(Values(g, r)) <==> RegionOk(g, r)
  {
    RepeatsMeaning(Values(g, r));
  }

  /* ---------------------------------------------------------------------- */
  /* The validator                                                           */
  /* ---------------------------------------------------------------------- */

  /** One region's test: its non-zero values, as a list, have no duplicate. */
  method RegionHasNoRepeat(g: Grid, r: seq<Cell>) returns (ok: bool)
    requires Is9x9(g) && forall p :: 0 <= p < |r| ==> InGrid(r[p])
    ensures ok <==> RegionOk(g, r)
  {
    var values := NonZero(Values(g, r));
    ok := |values| == |Elems(values)|;
    RepeatsInRegion(g, r);
  }

  /**
    `comprobar_sudoku`: shape first, then the value range, then rows and
    columns (row i and column i together), then the blocks.
  */
  method CheckSudoku(g: seq<seq<int>>) returns (ok: bool)
    ensures ok <==> Valid(g)
  {
    // Dimensions
    if |g| != 9 {
      return false;
    }
    for r := 0 to 9
      invariant forall r' :: 0 <= r' < r ==> |g[r']| == 9
    {
      if |g[r]| != 9 {
        return false;
      }
    }
    // Value range
    for i := 0 to 9
      invariant forall a :: InGrid(a) && a.row < i ==> 0 <= At(g, a) <= 9
    {
      for j := 0 to 9
        invariant forall a :: InGrid(a) && (a.row < i || (a.row == i && a.col < j)) ==> 0 <= At(g, a) <= 9
      {
        if g[i][j] < 0 || g[i][j] > 9 {
          assert At(g, Cell(i, j)) == g[i][j];
          return false;
        }
      }
    }
    NoConflictByRegions(g);
    ok := CheckRegions(g);
  }

  /** The first `j` regions of the sweep order have no repeated digit. */
  ghost predicate RegionsOkBelow(g: Grid, j: int)
    requires Is9x9(g) && 0 <= j <= 27
  {
    forall k :: 0 <= k < j ==> RegionOk(g, Region(k))
  }

  lemma RegionsOkNext(g: Grid, j: int)
    requires Is9x9(g) && 0 <= j < 27 && RegionsOkBelow(g, j) && RegionOk(g, Region(j))
    ensures RegionsOkBelow(g, j + 1)
  {
  }

  /** The row, column and block part of `comprobar_sudoku`. */
  method CheckRegions(g: seq<seq<int>>) returns (ok: bool)
    requires Is9x9(g)
    ensures ok <==> forall k :: 0 <= k < 27 ==> RegionOk(g, Region(k))
  {
    // Rows and columns
    for i := 0 to 9
      invariant RegionsOkBelow(g, 2 * i)
    {
      RowColRegions(i);
      var rowOk := RegionHasNoRepeat(g, RowCells(i));
      if !rowOk {
        return false;
      }
      RegionsOkNext(g, 2 * i);
      var colOk := RegionHasNoRepeat(g, ColCells(i));
      if !colOk {
        return false;
      }
      RegionsOkNext(g, 2 * i + 1);
    }
    ok := CheckBlocks(g);
  }

  /** The block part of `comprobar_sudoku`, once every row and column passed. */
  method CheckBlocks(g: seq<seq<int>>) returns (ok: bool)
    requires Is9x9(g)
    requires RegionsOkBelow(g, 18)
    ensures ok <==> forall k :: 0 <= k < 27 ==> RegionOk(g, Region(k))
  {
    // 3x3 blocks, corners (bi, bj) = (3 * m, 3 * n)
    for m := 0 to 3
      invariant RegionsOkBelow(g, 18 + 3 * m)
    {
      for n := 0 to 3
        invariant RegionsOkBelow(g, 18 + 3 * m + n)
      {
        var bi, bj := 3 * m, 3 * n;
        BlockRegion(m, n);
        var blockOk := RegionHasNoRepeat(g, BlockCells(bi, bj));
        if !blockOk {
          return false;
        }
        RegionsOkNext(g, 18 + 3 * m + n);
      }
    }
    return true;
  }
}
