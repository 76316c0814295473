/**
  The three region helpers of the solver (`valores_fila`, `valores_columna`,
  `valores_bloque`): the non-zero values present in a row, a column, or the
  3x3 block around a cell.
*/
module Regions {
  import opened Board

  /** The values present in row `i`, without 0. */
  function RowValues(g: Grid, i: int): (r: set<int>)
    requires Is9x9(g) && 0 <= i < 9
    ensures forall v :: v in r <==> v != 0 && exists c :: 0 <= c < 9 && At(g, Cell(i, c)) == v
  {
    assert forall v :: v in g[i] ==> exists c :: 0 <= c < 9 && g[i][c] == v && At(g, Cell(i, c)) == v;
    (set x | x in g[i]) - {0}
  }

  /** The values present in column `j`, without 0. */
  function ColValues(g: Grid, j: int): (r: set<int>)
    requires Is9x9(g) && 0 <= j < 9
    ensures forall v :: v in r <==> v != 0 && exists x :: 0 <= x < 9 && At(g, Cell(x, j)) == v
  {
    assert forall x :: 0 <= x < 9 ==> g[x][j] == At(g, Cell(x, j));
    (set x | 0 <= x < 9 :: g[x][j]) - {0}
  }

  /** The values present in the 3x3 block that contains cell (i, j), without 0. */
  function BlockValues(g: Grid, i: int, j: int): (r: set<int>)
    requires Is9x9(g) && 0 <= i < 9 && 0 <= j < 9
    ensures forall v :: v in r <==>
      v != 0 && exists b :: InGrid(b) && b.row / 3 == i / 3 && b.col / 3 == j / 3 && At(g, b) == v
  {
    BlockCellsMeaning(i, j);
    (set b | b in BlockCells(3 * (i / 3), 3 * (j / 3)) :: At(g, b)) - {0}
  }

  /** The block listed from the corner of (i, j) is exactly the cells sharing its block. */
  lemma BlockCellsMeaning(i: int, j: int)
    requires 0 <= i < 9 && 0 <= j < 9
    ensures forall b :: b in BlockCells(3 * (i / 3), 3 * (j / 3)) <==>
      InGrid(b) && b.row / 3 == i / 3 && b.col / 3 == j / 3
  {
    var bi, bj := 3 * (i / 3), 3 * (j / 3);
    var r := BlockCells(bi, bj);
    forall p | 0 <= p < 9
      ensures InGrid(r[p]) && r[p].row / 3 == i / 3 && r[p].col / 3 == j / 3
    {
      BlockDiv(i / 3, p / 3);
      BlockDiv(j / 3, p % 3);
    }
    forall b | InGrid(b) && b.row / 3 == i / 3 && b.col / 3 == j / 3
      ensures b in r
    {
      var p := 3 * (b.row - bi) + (b.col - bj);
      BlockDiv(b.row - bi, b.col - bj);
      assert r[p] == b;
    }
  }
}
