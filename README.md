# Lights Out board, modelled in Dafny

The model covers the game logic of the `Board` component of a React "Lights Out" puzzle. The board is a grid of `nrows` by `ncols` cells, each lit or unlit. `createBoard` fills it row by row. A cell is lit when its random draw is below `chanceLightStartsOn`.

Each cell is rendered with a coordinate string `"y-x"`. Clicking a cell calls `flipCellsAround(coord)`, which passes an updater to `setBoard`. The updater does four things:

- it decodes the coordinate by splitting on `-` and reading both parts with `Number`;
- it deep-copies the old board;
- it calls `flipCell` on the clicked cell and on its left, right, upper and lower neighbours, and `flipCell` skips any position off the board;
- it returns the copy, so the old board is never changed.

Three modules, one per concern:

- `Grids` (grids.dfy) is the board as a value (`seq<seq<bool>>`). It holds the value-level functions `Flip` and `FlipAround`, which the array methods are proved against, the reference set `Cross` of cells a click should change, and the lemmas about them: involution, exactly the cross changes, 3 cells for a corner and 5 for an interior cell, and the shape of the initial board.
- `Coord` (coord.dfy) holds the coordinate string. `Encode` is the template literal and `Decode` the split-and-`Number` reader. The lemma `DecodeEncode` proves the round trip, built from `Split`/`Join` and decimal printing/reading.
- `LightsOut` (lightsout.dfy) is the imperative part on `array2<bool>`. `FlipCell` mutates the board in place and `DeepCopy` makes the copy. `NextBoard` is the updater. `CreateBoard` is the nested loop. The class `Board` holds the properties and the board state. Each method is proved against the functions of `Grids`.

Randomness is injected. `createBoard`'s calls to `Math.random()` become the parameter `draws` (a real in [0, 1) per cell, in call order). React's `useState`/`setBoard` becomes assignment of the `board` field.

Two points where the model follows the code exactly:

- `hasWon` (src/Board.js:45-47) is an empty stub in the code, so no win rule is modelled.
- The code bounds-checks the clicked cell itself as well as its four neighbours (line 65 goes through `flipCell` too). The model therefore accepts any coordinate and needs no precondition on the origin.

## Model

| member | source | states |
|---|---|---|
| `Grids.Flip` | src/Board.js:53-59 | the cell at (y, x) is inverted exactly when 0 <= x < ncols and 0 <= y < nrows; every other cell keeps its value and the shape is kept |
| `Grids.FlipTwice` | src/Board.js:53-59 | flipping the same position twice gives back the board |
| `Grids.FlipAround` | src/Board.js:65-74 | after the five flips, a cell of the board is inverted exactly when it is the clicked cell or one of its four axis neighbours; the result has the same nrows x ncols shape |
| `Grids.FlipAroundTwice` | src/Board.js:65-74 | clicking the same cell twice restores the original board |
| `Grids.FlipAroundChangesCross` | src/Board.js:65-74 | the set of cells where old and new board differ equals the in-bounds members of {(y,x), (y,x-1), (y,x+1), (y-1,x), (y+1,x)}; a corollary of `FlipAround`'s cell-by-cell contract |
| `Grids.FlipCornerChangesThree` | src/Board.js:56-74 | on a board of at least 2 x 2, clicking (0, 0) changes exactly (0,0), (0,1), (1,0): three cells; a corollary of `FlipAround`'s contract |
| `Grids.FlipInteriorChangesFive` | src/Board.js:56-74 | clicking a cell with neighbours on all four sides changes exactly those five cells; a corollary of `FlipAround`'s contract |
| `Grids.CentreClickOnDarkThreeByThree` | src/Board.js:65-74 | on a dark 3 x 3 board a centre click lights exactly the centre cross, and a second centre click makes it dark again |
| `Grids.InitialBoard` | src/Board.js:34-43 | the board createBoard builds, as a value: nrows rows of ncols cells, cell (i, j) lit exactly when its draw is below the chance; `InitialBoardShape` and `LightsOut.CreateBoard` carry its properties |
| `Grids.InitialBoardShape` | src/Board.js:34-43 | the initial board has nrows rows of ncols cells; with draws in [0, 1), a chance of 0 lights no cell and a chance of 1 lights every cell |
| `Coord.NatToString` | src/Board.js:86 | the decimal text of a number is a non-empty string of digits, with a leading '0' only for 0 |
| `Coord.Number` | src/Board.js:51 | `Number` on a piece gives a value exactly when the piece is all decimal digits, otherwise NaN (None); `NumberOfNatToString` proves it reads decimal text back |
| `Coord.NumberOfNatToString` | src/Board.js:51 | `Number` applied to the decimal text of n gives n |
| `Coord.Split` | src/Board.js:51 | `split("-")` returns at least one piece, no piece contains '-', and joining the pieces with '-' gives back the string |
| `Coord.SplitJoin` | src/Board.js:51 | splitting the '-'-join of '-'-free pieces gives back exactly those pieces |
| `Coord.Encode` | src/Board.js:86 | the template literal `${y}-${x}`; it splits at '-' into exactly the decimal texts of y and x; `DecodeEncode` and `EncodeInjective` carry its round trip |
| `Coord.Decode` | src/Board.js:51 | split, `map(Number)` and `[y, x]` destructuring: a pair exactly when there are at least two pieces and the first two are digit strings, and then their values; `DecodeEncode` proves it inverts `Encode` |
| `Coord.DecodeEncode` | src/Board.js:86 | decoding (line 51) the string `${y}-${x}` gives back the pair (y, x) for all naturals y, x |
| `Coord.EncodeInjective` | src/Board.js:86 | two cells get the same coordinate string only if they are the same cell |
| `LightsOut.FlipAtCoord` | src/Board.js:50-78 | the updater's result as a value: the board keeps its shape, and a coordinate that decodes to NaN leaves it unchanged; `FlipAtEncoded` and `FlipAtCoordTwice` carry its properties |
| `LightsOut.FlipAtEncoded` | src/Board.js:86-90 | a click on a rendered cell's coordinate string flips around exactly that cell, keeping the board's shape |
| `LightsOut.FlipAtCoordTwice` | src/Board.js:49-79 | for every coordinate string, valid or not, two clicks on it restore the board |
| `LightsOut.FlipCell` | src/Board.js:53-59 | the in-place flip leaves the array holding `Flip` of its old cells |
| `LightsOut.DeepCopy` | src/Board.js:62 | the copy is a freshly allocated array of the same dimensions holding the same cells |
| `LightsOut.NextBoard` | src/Board.js:50-78 | the updater returns a fresh array of the same dimensions holding the flipped board, and it does not modify the old board (it has no modifies clause) |
| `LightsOut.CreateBoard` | src/Board.js:34-43 | the nested loops produce a fresh nrows x ncols array whose cell (i, j) is lit exactly when draw (i, j) is below the chance |
| `LightsOut.Board.constructor` | src/Board.js:30-31 | the component starts with the properties it is given, defaulting to 5 rows, 5 columns and chance 0.5, and a board built by createBoard |
| `LightsOut.Board.FlipCellsAround` | src/Board.js:49-79 | the state becomes a fresh board holding the clicked result with unchanged dimensions, and the previous board array still holds its old cells |
| `LightsOut.ClickTwice` | src/Board.js:49-79 | two clicks on the same rendered cell leave the state with the original cells, and the first board array is left untouched |

## Left out

- React plumbing is not modelled: `useState`, the updater protocol of `setBoard`, and rendering the `<table>`, `<tr>` and `<Cell>` elements (src/Board.js:81-101). Assigning the `board` field stands in for a state update.
- The random lit/unlit choice is not modelled as a random process. The values returned by `Math.random()` are the parameter `draws`. They are real numbers, not IEEE doubles, and their order follows the cells row by row as the loops call it.
- `CreateBoard`: the source builds nested JavaScript arrays with `push`. The model allocates an `nrows` x `ncols` `array2` and fills it in the same row-major order.
- `hasWon` is not modelled: it is an empty TODO in the source and defines no win rule.
- `DeepCopy`: `JSON.parse(JSON.stringify(...))` is modelled only as its effect, a fresh array with the same cells. JSON itself is not modelled.
- `Coord.Number`: it reads only strings of decimal digits (the empty string reads as 0, as `Number("")` does) and treats every other string as `NaN`. It does not model signs, whitespace, decimal points, exponents, hexadecimal or `Infinity`, which the renderer never produces. For `NaN` the model matches the source: with either coordinate `NaN`, every bounds test in `flipCell` fails and the copy is returned unchanged.
- The commented-out flip calls (src/Board.js:66-69) are dead code.
- The component's only concurrency is React batching updates; the model treats each click as one complete, sequential update.
