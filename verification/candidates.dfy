/**
  The candidate engine: `calcular_candidatos` builds every empty cell's set of
  placeable digits, and `actualizar_candidatos` propagates one assignment by
  removing the assigned digit from the sets of the cell's empty peers.
  Both report contradiction no. 1 (an empty cell left without candidates).
*/
module Candidates {
  import opened Board
  import opened Regions

  /** `set(range(1, 10)) - usados`: the digits not used in the cell's row, column and block. */
  function Allowed(g: Grid, a: Cell): set<int>
    requires Is9x9(g) && InGrid(a)
  {
    Digits - (RowValues(g, a.row) + ColValues(g, a.col) + BlockValues(g, a.row, a.col))
  }

  /** The region-by-region computation agrees with the peer-based definition of a legal digit. */
  lemma AllowedIsLegal(g: Grid, a: Cell)
    requires Is9x9(g) && InGrid(a)
    ensures Allowed(g, a) == Legal(g, a)
  {
    forall v | v in Digits
      ensures v in Allowed(g, a) <==> !Sees(g, a, v)
    {
      if Sees(g, a, v) {
        var b :| InGrid(b) && Peer(a, b) && At(g, b) == v;
        if a.row == b.row {
          assert At(g, Cell(a.row, b.col)) == v;
        } else if a.col == b.col {
          assert At(g, Cell(b.row, a.col)) == v;
        }
      }
      if v in RowValues(g, a.row) {
        var c :| 0 <= c < 9 && At(g, Cell(a.row, c)) == v;
        assert Peer(a, Cell(a.row, c));
      }
      if v in ColValues(g, a.col) {
        var x :| 0 <= x < 9 && At(g, Cell(x, a.col)) == v;
        assert Peer(a, Cell(x, a.col));
      }
    }
  }

  lemma AllowedIsLegalEverywhere(g: Grid)
    requires Is9x9(g)
    ensures forall a :: InGrid(a) ==> Allowed(g, a) == Legal(g, a)
  {
    forall a | InGrid(a)
      ensures Allowed(g, a) == Legal(g, a)
    {
      AllowedIsLegal(g, a);
    }
  }

  /** Some empty cell has no allowed digit: the test that ends `calcular_candidatos` early. */
  predicate HasStuckCell(g: Grid)
    requires Is9x9(g)
  {
    exists i, j :: 0 <= i < 9 && 0 <= j < 9 && g[i][j] == 0 && Allowed(g, Cell(i, j)) == {}
  }

  lemma HasStuckCellMeaning(g: Grid)
    requires Is9x9(g)
    ensures HasStuckCell(g) <==> exists a :: InGrid(a) && At(g, a) == 0 && Legal(g, a) == {}
  {
    if HasStuckCell(g) {
      var i, j :| 0 <= i < 9 && 0 <= j < 9 && g[i][j] == 0 && Allowed(g, Cell(i, j)) == {};
      AllowedIsLegal(g, Cell(i, j));
      assert At(g, Cell(i, j)) == 0;
    }
    if exists a :: InGrid(a) && At(g, a) == 0 && Legal(g, a) == {} {
      var a :| InGrid(a) && At(g, a) == 0 && Legal(g, a) == {};
      AllowedIsLegal(g, a);
      assert g[a.row][a.col] == 0 && Allowed(g, Cell(a.row, a.col)) == {};
    }
  }

  /** The matrix `calcular_candidatos` fills in when no cell is stuck. */
  function CandidateMatrix(g: Grid): (c: Cands)
    requires Is9x9(g)
    ensures Is9x9(c)
    ensures forall a :: InGrid(a) ==> At(c, a) == if At(g, a) == 0 then Allowed(g, a) else {}
  {
    seq(9, i requires 0 <= i < 9 =>
      seq(9, j requires 0 <= j < 9 => if g[i][j] == 0 then Allowed(g, Cell(i, j)) else {}))
  }

  /**
    `calcular_candidatos`: `None` exactly when some empty cell has no legal
    digit (contradiction no. 1); otherwise every empty cell gets its legal
    digits and every filled cell the empty set.
  */
  function ComputeCandidates(g: Grid): (r: Option<Cands>)
    requires Is9x9(g)
    ensures r.None? <==> exists a :: InGrid(a) && At(g, a) == 0 && Legal(g, a) == {}
    ensures r.Some? ==> IsCands(r.value)
    ensures r.Some? ==> forall a :: InGrid(a) ==>
      At(r.value, a) == if At(g, a) == 0 then Legal(g, a) else {}
  {
    HasStuckCellMeaning(g);
    AllowedIsLegalEverywhere(g);
    if HasStuckCell(g) then None else Some(CandidateMatrix(g))
  }

  /** The cells `actualizar_candidatos` visits: row and column interleaved, then the block. */
  function UpdateOrder(a: Cell): seq<Cell> {
    seq(18, k => if k % 2 == 0 then Cell(a.row, k / 2) else Cell(k / 2, a.col))
    + BlockCells(3 * (a.row / 3), 3 * (a.col / 3))
  }

  lemma UpdateOrderIsPeers(a: Cell)
    requires InGrid(a)
    ensures forall p :: 0 <= p < |UpdateOrder(a)| ==> InGrid(UpdateOrder(a)[p])
    ensures forall b :: InGrid(b) ==> (b in UpdateOrder(a) <==> Peer(a, b))
  {
    var o := UpdateOrder(a);
    BlockCellsMeaning(a.row, a.col);
    forall b | InGrid(b) && Peer(a, b)
      ensures b in o
    {
      if a.row == b.row {
        assert o[2 * b.col] == b;
      } else if a.col == b.col {
        assert o[2 * b.row + 1] == b;
      } else {
        assert b in o[18..];
      }
    }
    forall p | 0 <= p < |o|
      ensures InGrid(o[p]) && Peer(a, o[p])
    {
      if p >= 18 {
        assert o[p] in BlockCells(3 * (a.row / 3), 3 * (a.col / 3));
      }
    }
  }

  /**
    The loop body of `actualizar_candidatos` over `cells`: discard `v` from
    every empty cell visited, failing as soon as one is left empty.
  */
  function Discard(g: Grid, c: Cands, cells: seq<Cell>, v: int): (r: Option<Cands>)
    requires Is9x9(g) && Is9x9(c) && forall p :: 0 <= p < |cells| ==> InGrid(cells[p])
    ensures r.Some? <==> forall p :: 0 <= p < |cells| && At(g, cells[p]) == 0 ==> At(c, cells[p]) - {v} != {}
    ensures r.Some? ==> Is9x9(r.value)
    ensures r.Some? ==> forall b :: InGrid(b) ==>
      At(r.value, b) == if b in cells && At(g, b) == 0 then At(c, b) - {v} else At(c, b)
    decreases |cells|
  {
    if cells == [] then Some(c)
    else
      var b := cells[0];
      if At(g, b) == 0 then
        var c2 := Put(c, b, At(c, b) - {v});
        if At(c2, b) == {} then None
        else
          var r := Discard(g, c2, cells[1..], v);
          assert forall p :: 0 <= p < |cells| - 1 ==> cells[1..][p] == cells[p + 1];
          assert r.Some? ==> forall b' :: b' in cells <==> b' == b || b' in cells[1..];
          r
      else
        var r := Discard(g, c, cells[1..], v);
        assert forall p :: 0 <= p < |cells| - 1 ==> cells[1..][p] == cells[p + 1];
        assert r.Some? ==> forall b' :: b' in cells <==> b' == b || b' in cells[1..];
        r
  }

  /**
    `actualizar_candidatos(sudoku, celda, candidatos)`, where the grid
    already holds the new value at `a`. With 0 there nothing happens;
    otherwise the cell's own set is cleared and its value is discarded from
    every empty peer, failing (contradiction no. 1) exactly when that empties
    one of them.
  */
  function UpdateCandidates(g: Grid, a: Cell, c: Cands): (r: Option<Cands>)
    requires Is9x9(g) && Is9x9(c) && InGrid(a)
    ensures At(g, a) == 0 ==> r == Some(c)
    ensures At(g, a) != 0 ==>
      (r.Some? <==> forall b :: InGrid(b) && Peer(a, b) && At(g, b) == 0 ==> At(c, b) - {At(g, a)} != {})
    ensures At(g, a) != 0 && r.Some? ==> Is9x9(r.value) && forall b :: InGrid(b) ==>
      At(r.value, b) ==
        if b == a then {}
        else if Peer(a, b) && At(g, b) == 0 then At(c, b) - {At(g, a)}
        else At(c, b)
  {
    var v := At(g, a);
    if v == 0 then Some(c)
    else
      UpdateOrderIsPeers(a);
      Discard(g, Put(c, a, {}), UpdateOrder(a), v)
  }

  /* ---------------------------------------------------------------------- */
  /* The candidate invariant                                                 */
  /* ---------------------------------------------------------------------- */

  /** A successful update keeps every candidate set within the digits. */
  lemma UpdateKeepsCands(g: Grid, a: Cell, c: Cands)
    requires Is9x9(g) && IsCands(c) && InGrid(a)
    requires UpdateCandidates(g, a, c).Some?
    ensures IsCands(UpdateCandidates(g, a, c).value)
    ensures forall b :: InGrid(b) ==> At(UpdateCandidates(g, a, c).value, b) <= At(c, b)
  {
  }

  /** Filling an empty cell with `v` takes `v` out of the legal digits of its peers and nothing else. */
  lemma LegalAfterFill(g: Grid, a: Cell, v: int, b: Cell)
    requires Is9x9(g) && InGrid(a) && InGrid(b) && At(g, a) == 0
    ensures Legal(Put(g, a, v), b) == if Peer(b, a) then Legal(g, b) - {v} else Legal(g, b)
  {
    var g2 := Put(g, a, v);
    forall w | w in Digits
      ensures Sees(g2, b, w) <==> Sees(g, b, w) || (Peer(b, a) && w == v)
    {
      if Sees(g2, b, w) {
        var x :| InGrid(x) && Peer(b, x) && At(g2, x) == w;
        if x != a {
          assert At(g, x) == w;
        }
      }
      if Sees(g, b, w) {
        var x :| InGrid(x) && Peer(b, x) && At(g, x) == w;
        assert x != a;
        assert At(g2, x) == w;
      }
      if Peer(b, a) && w == v {
        assert At(g2, a) == w;
      }
    }
  }

  /**
    The invariant is restored after every assignment into an empty cell:
    if every empty cell listed exactly its legal digits before `a` was
    filled with `v`, it does so again after a successful update.
  */
  lemma UpdateRestoresCandInv(st: State, a: Cell, v: int)
    requires Wf(st) && CandInv(st) && InGrid(a) && At(st.grid, a) == 0 && v != 0
    requires UpdateCandidates(Put(st.grid, a, v), a, st.cands).Some?
    ensures CandInv(State(Put(st.grid, a, v), UpdateCandidates(Put(st.grid, a, v), a, st.cands).value))
  {
    var g2 := Put(st.grid, a, v);
    var c2 := UpdateCandidates(g2, a, st.cands).value;
    UpdateKeepsCands(g2, a, st.cands);
    forall b | InGrid(b) && At(g2, b) == 0
      ensures At(c2, b) == Legal(g2, b)
    {
      LegalAfterFill(st.grid, a, v, b);
    }
  }

  /** The candidate invariant implies the weaker, subset form. */
  lemma CandInvIsSound(st: State)
    requires Wf(st) && CandInv(st)
    ensures CandSound(st)
  {
  }

  /**
    Writing `v` at `a` (whatever `a` held) keeps the state sound when no
    other peer of `a` holds `v` and the update succeeds: the grid stays free
    of conflicts and no empty cell lists an illegal digit.
  */
  lemma AssignKeepsSound(st: State, a: Cell, v: int)
    requires Wf(st) && Sound(st) && InGrid(a) && v != 0
    requires forall b :: InGrid(b) && Peer(a, b) && b != a ==> At(st.grid, b) != v
    requires UpdateCandidates(Put(st.grid, a, v), a, st.cands).Some?
    ensures Wf(State(Put(st.grid, a, v), UpdateCandidates(Put(st.grid, a, v), a, st.cands).value))
    ensures Sound(State(Put(st.grid, a, v), UpdateCandidates(Put(st.grid, a, v), a, st.cands).value))
  {
    var g2 := Put(st.grid, a, v);
    var c2 := UpdateCandidates(g2, a, st.cands).value;
    UpdateKeepsCands(g2, a, st.cands);
    forall x, y | InGrid(x) && InGrid(y) && x != y && Peer(x, y) && At(g2, x) != 0
      ensures At(g2, x) != At(g2, y)
    {
      if x != a && y != a {
        assert At(g2, x) == At(st.grid, x) && At(g2, y) == At(st.grid, y);
      }
    }
    forall x | InGrid(x) && At(g2, x) == 0
      ensures At(c2, x) <= Legal(g2, x)
    {
      assert x != a && At(st.grid, x) == 0;
      forall w | w in At(c2, x)
        ensures !Sees(g2, x, w)
      {
        assert !Sees(st.grid, x, w);
        forall y | InGrid(y) && Peer(x, y)
          ensures At(g2, y) != w
        {
          if y == a {
            assert Peer(a, x) && w in At(st.cands, x) - {v};
          } else {
            assert At(g2, y) == At(st.grid, y);
          }
        }
      }
    }
  }
}
