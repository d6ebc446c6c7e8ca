/** The Lights Out board as a value: `nrows` rows of `ncols` cells each,
    a cell being `true` when it is lit. This is the specification that the
    array-based methods of module LightsOut are proved against. */
module Grids {

  type Grid = seq<seq<bool>>

  /** `g` has exactly `nrows` rows, each of exactly `ncols` cells. */
  predicate IsGrid(g: Grid, nrows: nat, ncols: nat) {
    |g| == nrows && forall i :: 0 <= i < |g| ==> |g[i]| == ncols
  }

  /** The guard of `flipCell`: the coordinate lies on the board. */
  predicate OnBoard(y: int, x: int, nrows: nat, ncols: nat) {
    x >= 0 && x < ncols && y >= 0 && y < nrows
  }

  /** Two grids of the same shape that agree on every cell are equal. */
  lemma {:induction false} SameCells(g: Grid, h: Grid, nrows: nat, ncols: nat)
    requires IsGrid(g, nrows, ncols) && IsGrid(h, nrows, ncols)
    requires forall i, j :: 0 <= i < nrows && 0 <= j < ncols ==> g[i][j] == h[i][j]
    ensures g == h
  {
    forall i | 0 <= i < nrows
      ensures g[i] == h[i]
    {
      assert |g[i]| == |h[i]| == ncols;
      forall j | 0 <= j < ncols
        ensures g[i][j] == h[i][j]
      {
      }
    }
  }

  /** `flipCell`: the cell at (y, x) is inverted when it is on the board;
      every other cell, and every cell of a board the coordinate misses,
      keeps its value. */
  function Flip(g: Grid, y: int, x: int, nrows: nat, ncols: nat): (r: Grid)
    requires IsGrid(g, nrows, ncols)
    ensures IsGrid(r, nrows, ncols)
    ensures forall i, j :: 0 <= i < nrows && 0 <= j < ncols ==>
      r[i][j] == (if i == y && j == x then !g[i][j] else g[i][j])
  {
    if OnBoard(y, x, nrows, ncols) then g[y := g[y][x := !g[y][x]]] else g
  }

  /** Flipping the same coordinate twice gives back the board. */
  lemma FlipTwice(g: Grid, y: int, x: int, nrows: nat, ncols: nat)
    requires IsGrid(g, nrows, ncols)
    ensures Flip(Flip(g, y, x, nrows, ncols), y, x, nrows, ncols) == g
  {
    SameCells(Flip(Flip(g, y, x, nrows, ncols), y, x, nrows, ncols), g, nrows, ncols);
  }

  /** (i, j) is the clicked cell (y, x) or one of its four axis-aligned
      neighbours. */
  predicate InCross(i: int, j: int, y: int, x: int) {
    (i == y && (j == x - 1 || j == x || j == x + 1)) || (j == x && (i == y - 1 || i == y + 1))
  }

  /** The board that `flipCellsAround` returns after clicking (y, x): the
      five flips of the source, in its order. Exactly the on-board cells of
      the cross are inverted; all other cells keep their value. */
  function FlipAround(g: Grid, y: int, x: int, nrows: nat, ncols: nat): (r: Grid)
    requires IsGrid(g, nrows, ncols)
    ensures IsGrid(r, nrows, ncols)
    ensures forall i, j :: 0 <= i < nrows && 0 <= j < ncols ==>
      r[i][j] == (g[i][j] != InCross(i, j, y, x))
  {
    var g1 := Flip(g, y, x, nrows, ncols);
    var g2 := Flip(g1, y, x - 1, nrows, ncols);
    var g3 := Flip(g2, y, x + 1, nrows, ncols);
    var g4 := Flip(g3, y - 1, x, nrows, ncols);
    Flip(g4, y + 1, x, nrows, ncols)
  }

  /** Clicking the same cell twice restores the board. */
  lemma FlipAroundTwice(g: Grid, y: int, x: int, nrows: nat, ncols: nat)
    requires IsGrid(g, nrows, ncols)
    ensures FlipAround(FlipAround(g, y, x, nrows, ncols), y, x, nrows, ncols) == g
  {
    SameCells(FlipAround(FlipAround(g, y, x, nrows, ncols), y, x, nrows, ncols), g, nrows, ncols);
  }

  /** The positions at which two boards of the same shape differ. */
  function Changed(g: Grid, h: Grid, nrows: nat, ncols: nat): (diff: set<(int, int)>)
    requires IsGrid(g, nrows, ncols) && IsGrid(h, nrows, ncols)
  {
    set i, j | 0 <= i < nrows && 0 <= j < ncols && g[i][j] != h[i][j] :: (i, j)
  }

  /** The in-bounds members of the five candidates of a click at (y, x):
      the cell itself, left, right, up and down. */
  function Cross(y: int, x: int, nrows: nat, ncols: nat): (cells: set<(int, int)>) {
    set p | p in {(y, x), (y, x - 1), (y, x + 1), (y - 1, x), (y + 1, x)} && OnBoard(p.0, p.1, nrows, ncols)
  }

  /** A click changes exactly the in-bounds cells of its cross. */
  lemma FlipAroundChangesCross(g: Grid, y: int, x: int, nrows: nat, ncols: nat)
    requires IsGrid(g, nrows, ncols)
    ensures Changed(g, FlipAround(g, y, x, nrows, ncols), nrows, ncols) == Cross(y, x, nrows, ncols)
  {
    var h := FlipAround(g, y, x, nrows, ncols);
    forall p | p in Cross(y, x, nrows, ncols)
      ensures p in Changed(g, h, nrows, ncols)
    {
      assert InCross(p.0, p.1, y, x);
      assert g[p.0][p.1] != h[p.0][p.1];
    }
    forall p | p in Changed(g, h, nrows, ncols)
      ensures p in Cross(y, x, nrows, ncols)
    {
      var (i, j) := p;
      assert InCross(i, j, y, x);
    }
  }

  /** Clicking the corner (0, 0) of a board at least 2 x 2 changes exactly
      three cells: itself, its right and its lower neighbour. */
  lemma FlipCornerChangesThree(g: Grid, nrows: nat, ncols: nat)
    requires IsGrid(g, nrows, ncols) && nrows >= 2 && ncols >= 2
    ensures Changed(g, FlipAround(g, 0, 0, nrows, ncols), nrows, ncols) == {(0, 0), (0, 1), (1, 0)}
    ensures |Changed(g, FlipAround(g, 0, 0, nrows, ncols), nrows, ncols)| == 3
  {
    FlipAroundChangesCross(g, 0, 0, nrows, ncols);
    assert Cross(0, 0, nrows, ncols) == {(0, 0), (0, 1), (1, 0)};
  }

  /** Clicking a cell with a neighbour on every side changes exactly five
      cells. */
  lemma FlipInteriorChangesFive(g: Grid, y: int, x: int, nrows: nat, ncols: nat)
    requires IsGrid(g, nrows, ncols)
    requires 1 <= y < nrows - 1 && 1 <= x < ncols - 1
    ensures Changed(g, FlipAround(g, y, x, nrows, ncols), nrows, ncols)
         == {(y, x), (y, x - 1), (y, x + 1), (y - 1, x), (y + 1, x)}
    ensures |Changed(g, FlipAround(g, y, x, nrows, ncols), nrows, ncols)| == 5
  {
    FlipAroundChangesCross(g, y, x, nrows, ncols);
    var five := {(y, x), (y, x - 1), (y, x + 1), (y - 1, x), (y + 1, x)};
    assert Cross(y, x, nrows, ncols) == five;
    assert |{(y, x), (y, x - 1)}| == 2;
    assert |{(y, x), (y, x - 1), (y, x + 1)}| == 3;
    assert |{(y, x), (y, x - 1), (y, x + 1), (y - 1, x)}| == 4;
  }

  /** On an unlit 3 x 3 board a click on the centre lights the centre and
      its four neighbours; a second click turns the board dark again. */
  lemma CentreClickOnDarkThreeByThree()
    ensures FlipAround([[false, false, false], [false, false, false], [false, false, false]], 1, 1, 3, 3)
         == [[false, true, false], [true, true, true], [false, true, false]]
    ensures FlipAround([[false, true, false], [true, true, true], [false, true, false]], 1, 1, 3, 3)
         == [[false, false, false], [false, false, false], [false, false, false]]
  {
    var dark := [[false, false, false], [false, false, false], [false, false, false]];
    var lit := [[false, true, false], [true, true, true], [false, true, false]];
    assert IsGrid(dark, 3, 3) && IsGrid(lit, 3, 3);
    SameCells(FlipAround(dark, 1, 1, 3, 3), lit, 3, 3);
    SameCells(FlipAround(lit, 1, 1, 3, 3), dark, 3, 3);
  }

  /** The board `createBoard` builds from the values of its successive
      `Math.random()` calls, `draws[i][j]` being the one made for row i,
      column j: a cell is lit when its draw is below the chance. */
  function InitialBoard(draws: seq<seq<real>>, chanceLightStartsOn: real, nrows: nat, ncols: nat): (b: Grid)
    requires |draws| == nrows && forall i :: 0 <= i < nrows ==> |draws[i]| == ncols
    ensures IsGrid(b, nrows, ncols)
    ensures forall i, j :: 0 <= i < nrows && 0 <= j < ncols ==> b[i][j] == (draws[i][j] < chanceLightStartsOn)
  {
    seq(nrows, i requires 0 <= i < nrows => seq(ncols, j requires 0 <= j < ncols => draws[i][j] < chanceLightStartsOn))
  }

  /** Every draw lies in [0, 1), as `Math.random()` promises. */
  predicate UnitDraws(draws: seq<seq<real>>) {
    forall i, j :: 0 <= i < |draws| && 0 <= j < |draws[i]| ==> 0.0 <= draws[i][j] < 1.0
  }

  /** The initial board has `nrows` rows of `ncols` cells; with a chance of
      0 (or less) no cell starts lit, with a chance of 1 (or more) every
      cell does. */
  lemma InitialBoardShape(draws: seq<seq<real>>, chanceLightStartsOn: real, nrows: nat, ncols: nat)
    requires |draws| == nrows && forall i :: 0 <= i < nrows ==> |draws[i]| == ncols
    requires UnitDraws(draws)
    ensures IsGrid(InitialBoard(draws, chanceLightStartsOn, nrows, ncols), nrows, ncols)
    ensures chanceLightStartsOn <= 0.0 ==> forall i, j :: 0 <= i < nrows && 0 <= j < ncols ==>
      !InitialBoard(draws, chanceLightStartsOn, nrows, ncols)[i][j]
    ensures chanceLightStartsOn >= 1.0 ==> forall i, j :: 0 <= i < nrows && 0 <= j < ncols ==>
      InitialBoard(draws, chanceLightStartsOn, nrows, ncols)[i][j]
  {
  }
}
