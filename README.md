# Gungi board: a verified model

This project models the game board of the Gungi prototype (`board.py`): a `size` by
`size` grid of cells stored row-major as `grid[y][x]`, where each cell is empty (`None`)
or holds exactly one piece. The board offers a bounds test, an in-place write
(`place_piece`) that overwrites one cell and refuses coordinates off the board, and a read
(`get_piece`) that returns the occupant, or `None` for an empty cell or a bad coordinate.

Files:

- `wrappers.dfy` — `Option`, standing for Python's `None` or an object in a cell.
- `pieces.dfy` — the records of `pieces.py` (`Side`, `PieceType`, `Piece`), with no behaviour; `Piece` is the board's intended element type. `PieceType` is kept only as context: no member uses it.
- `board.dfy` — module `Board`:
  - the board as a value: `Snapshot(size, grid)`, with `Init`, `InBounds`, `Get` and `Place` as functions and the lemmas that state what they promise. `Extent(size)` is the number of rows and cells per row that `range(size)` yields (board.py:11). `InBounds` is the bounds test of board.py:21;
  - the class `Board<T>`, whose cells live in a two-dimensional array that `PlacePiece` updates in place. Its contracts are stated through that value.
  - `DefaultBoardScenario`, a client on the default 9 by 9 board. It places a piece, reads it back unchanged, overwrites it, and is refused off the board.

The board is generic in its element type because `place_piece` stores whatever object it is given.
It never looks inside the piece, so it cannot change the piece's own `x` and `y`.

Points where the model is specific:

- The docstring of `Board.__init__` speaks of an 8x8 board, but the default size is 9.
  The model follows the code: the constructor's size defaults to `DefaultSize`, which is 9.
- `size` is not validated. For a negative size, `range(size)` is empty, so the grid has no rows
  and every coordinate is off the board. `Extent(size)` models this, so no `size >= 0` precondition is needed.
- Gungi stacks pieces and gives them ranks and movement rules, but `board.py` implements none of
  these: a cell holds one piece, and a second placement replaces the first. The model follows the code.

## Model

| member | source | states |
|---|---|---|
| Board.Init | board.py:10-11 | a new board keeps the given size and has `size` rows of `size` cells, every one empty (none for a negative size) |
| Board.Get | board.py:47-51 | the read yields a piece only for a coordinate on the board: off the board it is `None`, whatever the cells hold |
| Board.Place | board.py:32-37 | placing succeeds exactly when the coordinate is on the board, and the grid keeps its shape and size |
| Board.InBoundsIsCellIndex | board.py:21 | the bounds test is true exactly for the coordinates that index a cell of the grid, row `y` then column `x` |
| Board.GetInit | board.py:11 | on a freshly built board every coordinate reads as `None` |
| Board.ReadAfterWrite | board.py:32-34 | placing on the board returns True, and the cell then reads as that same piece |
| Board.PlaceFrame | board.py:33 | placing changes no cell other than `(x, y)` |
| Board.PlaceKeepsTransposed | board.py:33 | the transposed cell `(y, x)` keeps its content when `x != y` |
| Board.PlaceOutOfBounds | board.py:35-37 | off the board, placing returns False and leaves the whole board as it was |
| Board.PlaceOverwrites | board.py:33 | no stacking: placing B where A was placed gives the same board as placing B alone |
| Board.PlaceCommutes | board.py:33 | placements at two different cells give the same board in either order |
| Board.Board.constructor | board.py:4-11 | the new board has the given size, an array of `size` by `size` cells, and is the empty board `Init(size)` |
| Board.Board.IsWithInBounds | board.py:13-21 | true exactly for the index pairs of the grid array; it reads no mutable state |
| Board.Board.GetPiece | board.py:39-51 | the read returns the stored cell on the board and `None` off it, and changes nothing |
| Board.Board.PlacePiece | board.py:23-37 | the new board is `Place` of the old one. It returns True exactly when the coordinate is on the board. Afterwards `(x, y)` reads as the piece and every other cell reads as before. On refusal the array is untouched |

## Left out

- The diagnostic `print` on an out-of-bounds coordinate (board.py:36, board.py:50) is console output. Only the False / `None` results are modelled.
- `Pieces.__str__` (pieces.py:43-47) is debug formatting and is not modelled. Neither are the numeric values of `Side` and the kanji display strings of `PieceType`: they are display data.
- Placing `None` to clear a cell is not modelled. The piece argument is documented as a piece instance, so `PlacePiece` takes a `T`.
- Dynamic typing: coordinates are integers. Non-integer coordinates, which Python would compare or fail on at run time, are not modelled.
