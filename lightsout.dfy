/** The Board component of Lights Out: its board state is a 2-D array of
    cells, created once from random draws and replaced, on every click, by
    a freshly made copy in which the clicked cell and its neighbours are
    flipped. */
module LightsOut {

  import opened Grids
  import opened Coord

  /** The cells of `a` as a value, row by row. */
  ghost function Contents(a: array2<bool>): (g: Grid)
    reads a
    ensures IsGrid(g, a.Length0, a.Length1)
    ensures forall i, j :: 0 <= i < a.Length0 && 0 <= j < a.Length1 ==> g[i][j] == a[i, j]
  {
    seq(a.Length0, i reads a requires 0 <= i < a.Length0 =>
      seq(a.Length1, j reads a requires 0 <= j < a.Length1 => a[i, j]))
  }

  /** The board after a click on the cell named `coord`. When either part
      of the coordinate reads as `NaN`, every bounds test of `flipCell`
      fails and the copy comes back unchanged. */
  function FlipAtCoord(g: Grid, coord: string, nrows: nat, ncols: nat): (r: Grid)
    requires IsGrid(g, nrows, ncols)
    ensures IsGrid(r, nrows, ncols)
    ensures Decode(coord).None? ==> r == g
  {
    match Decode(coord)
    case Some((y, x)) => FlipAround(g, y, x, nrows, ncols)
    case None => g
  }

  /** Clicking the cell of a coordinate string the renderer produced is
      clicking that cell, and the new board has the old one's shape. */
  lemma FlipAtEncoded(g: Grid, y: nat, x: nat, nrows: nat, ncols: nat)
    requires IsGrid(g, nrows, ncols)
    ensures IsGrid(FlipAtCoord(g, Encode(y, x), nrows, ncols), nrows, ncols)
    ensures FlipAtCoord(g, Encode(y, x), nrows, ncols) == FlipAround(g, y, x, nrows, ncols)
  {
    DecodeEncode(y, x);
  }

  /** Two clicks on the same coordinate string restore the board, whatever
      the string. */
  lemma FlipAtCoordTwice(g: Grid, coord: string, nrows: nat, ncols: nat)
    requires IsGrid(g, nrows, ncols)
    ensures IsGrid(FlipAtCoord(g, coord, nrows, ncols), nrows, ncols)
    ensures FlipAtCoord(FlipAtCoord(g, coord, nrows, ncols), coord, nrows, ncols) == g
  {
    match Decode(coord)
    case Some((y, x)) => FlipAroundTwice(g, y, x, nrows, ncols);
    case None =>
  }

  /** `flipCell(y, x, boardCopy)`: inverts the cell at (y, x) in place
      when it is on the `nrows` x `ncols` board, and does nothing
      otherwise. */
  method FlipCell(y: int, x: int, boardCopy: array2<bool>, nrows: nat, ncols: nat)
    requires boardCopy.Length0 == nrows && boardCopy.Length1 == ncols
    modifies boardCopy
    ensures Contents(boardCopy) == Flip(old(Contents(boardCopy)), y, x, nrows, ncols)
  {
    if x >= 0 && x < ncols && y >= 0 && y < nrows {
      boardCopy[y, x] := !boardCopy[y, x];
    }
    SameCells(Contents(boardCopy), Flip(old(Contents(boardCopy)), y, x, nrows, ncols), nrows, ncols);
  }

  /** The deep copy of the old board: a fresh array of the same
      dimensions holding the same cells. */
  method DeepCopy(oldBoard: array2<bool>) returns (boardCopy: array2<bool>)
    ensures fresh(boardCopy)
    ensures boardCopy.Length0 == oldBoard.Length0 && boardCopy.Length1 == oldBoard.Length1
    ensures Contents(boardCopy) == Contents(oldBoard)
  {
    boardCopy := new bool[oldBoard.Length0, oldBoard.Length1]((i, j)
      reads oldBoard requires 0 <= i < oldBoard.Length0 && 0 <= j < oldBoard.Length1 => oldBoard[i, j]);
    SameCells(Contents(boardCopy), Contents(oldBoard), oldBoard.Length0, oldBoard.Length1);
  }

  /** The updater `flipCellsAround` hands to `setBoard`: it decodes the
      coordinate, copies the old board and flips the clicked cell and its
      left, right, upper and lower neighbours in the copy, which it
      returns. The old board is not modified. */
  method NextBoard(oldBoard: array2<bool>, coord: string, nrows: nat, ncols: nat)
    returns (boardCopy: array2<bool>)
    requires oldBoard.Length0 == nrows && oldBoard.Length1 == ncols
    ensures fresh(boardCopy)
    ensures boardCopy.Length0 == nrows && boardCopy.Length1 == ncols
    ensures Contents(boardCopy) == FlipAtCoord(Contents(oldBoard), coord, nrows, ncols)
  {
    var yx := Decode(coord);
    boardCopy := DeepCopy(oldBoard);
    if yx.Some? {
      var y: int, x: int := yx.value.0, yx.value.1;
      FlipCell(y, x, boardCopy, nrows, ncols);
      FlipCell(y, x - 1, boardCopy, nrows, ncols);
      FlipCell(y, x + 1, boardCopy, nrows, ncols);
      FlipCell(y - 1, x, boardCopy, nrows, ncols);
      FlipCell(y + 1, x, boardCopy, nrows, ncols);
    }
  }

  /** `createBoard`: `nrows` rows of `ncols` cells, filled row by row;
      `draws[i][j]` is the value its `Math.random()` call for row i,
      column j returns, and the cell is lit when that draw is below
      `chanceLightStartsOn`. */
  method CreateBoard(nrows: nat, ncols: nat, chanceLightStartsOn: real, draws: seq<seq<real>>)
    returns (initialBoard: array2<bool>)
    requires |draws| == nrows && forall i :: 0 <= i < nrows ==> |draws[i]| == ncols
    ensures fresh(initialBoard)
    ensures initialBoard.Length0 == nrows && initialBoard.Length1 == ncols
    ensures Contents(initialBoard) == InitialBoard(draws, chanceLightStartsOn, nrows, ncols)
  {
    initialBoard := new bool[nrows, ncols];
    for i := 0 to nrows
      invariant forall r, c :: 0 <= r < i && 0 <= c < ncols ==>
        initialBoard[r, c] == (draws[r][c] < chanceLightStartsOn)
    {
      for j := 0 to ncols
        invariant forall r, c :: 0 <= r < i && 0 <= c < ncols ==>
          initialBoard[r, c] == (draws[r][c] < chanceLightStartsOn)
        invariant forall c :: 0 <= c < j ==> initialBoard[i, c] == (draws[i][c] < chanceLightStartsOn)
      {
        initialBoard[i, j] := draws[i][j] < chanceLightStartsOn;
      }
    }
    SameCells(Contents(initialBoard), InitialBoard(draws, chanceLightStartsOn, nrows, ncols), nrows, ncols);
  }

  /** The component: its properties and its board state. */
  class Board {
    const nrows: nat
    const ncols: nat
    const chanceLightStartsOn: real
    var board: array2<bool>

    /** The board always has the dimensions the properties give. */
    ghost predicate Valid()
      reads this
    {
      board.Length0 == nrows && board.Length1 == ncols
    }

    /** `useState(createBoard())`, with the default properties of the
        component: a 5 x 5 board, each cell lit with chance 0.5. */
    constructor (draws: seq<seq<real>>, nrows: nat := 5, ncols: nat := 5, chanceLightStartsOn: real := 0.5)
      requires |draws| == nrows && forall i :: 0 <= i < nrows ==> |draws[i]| == ncols
      ensures Valid() && fresh(board)
      ensures this.nrows == nrows && this.ncols == ncols && this.chanceLightStartsOn == chanceLightStartsOn
      ensures Contents(board) == InitialBoard(draws, chanceLightStartsOn, nrows, ncols)
    {
      this.nrows := nrows;
      this.ncols := ncols;
      this.chanceLightStartsOn := chanceLightStartsOn;
      new;
      board := CreateBoard(nrows, ncols, chanceLightStartsOn, draws);
    }

    /** `flipCellsAround(coord)`: the state becomes a new board, the old
        board array keeps its cells, and the dimensions stay. */
    method FlipCellsAround(coord: string)
      requires Valid()
      modifies this
      ensures Valid() && fresh(board)
      ensures Contents(board) == FlipAtCoord(old(Contents(board)), coord, nrows, ncols)
      ensures Contents(old(board)) == old(Contents(board))
    {
      board := NextBoard(board, coord, nrows, ncols);
    }
  }

  /** A click on a rendered cell followed by a second click on it gives
      back the board's cells, and the first board array is never touched. */
  method ClickTwice(b: Board, y: nat, x: nat)
    requires b.Valid() && y < b.nrows && x < b.ncols
    modifies b
    ensures b.Valid()
    ensures Contents(b.board) == old(Contents(b.board))
    ensures Contents(old(b.board)) == old(Contents(b.board))
  {
    ghost var start := b.board;
    var coord := Encode(y, x);
    b.FlipCellsAround(coord);
    b.FlipCellsAround(coord);
    FlipAtCoordTwice(Contents(start), coord, b.nrows, b.ncols);
  }
}
