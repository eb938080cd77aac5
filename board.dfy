/**
  The game board of board.py: a `size` by `size` grid of cells, indexed row-major as
  `grid[y][x]`, each cell empty or holding exactly one piece.

  The first half of the module is the board as a value (a `Snapshot` of its two
  attributes) with the reading and writing operations as functions and the lemmas that
  say what they promise. The second half is the class `Board`, which keeps the cells in a
  two-dimensional array that `PlacePiece` updates in place and whose contracts are stated
  through that value.
 */
module Board {
  import opened Wrappers
  import opened Pieces

  /** The size `Board()` uses when the caller gives none (board.py:4). */
  const DefaultSize: int := 9

  /** The number of rows, and of cells per row, that `range(size)` produces: none when `size` is negative. */
  function Extent(size: int): nat {
    if size < 0 then 0 else size
  }

  // ---------------------------------------------------------------------------
  // The board as a value
  // ---------------------------------------------------------------------------

  /** The two attributes of a board: `size` and the list of rows `grid`. */
  datatype Snapshot<T> = Snapshot(size: int, grid: seq<seq<Option<T>>>)

  /** The grid has `Extent(size)` rows of `Extent(size)` cells each. */
  predicate WellShaped<T>(s: Snapshot<T>) {
    && |s.grid| == Extent(s.size)
    && forall y :: 0 <= y < |s.grid| ==> |s.grid[y]| == Extent(s.size)
  }

  /** The board `Board(size)` builds: every cell empty. */
  function Init<T>(size: int): (s: Snapshot<T>)
    ensures s.size == size && WellShaped(s)
    ensures forall y, x :: 0 <= y < |s.grid| && 0 <= x < |s.grid[y]| ==> s.grid[y][x] == None
  {
    Snapshot(size, seq(Extent(size), _ => seq(Extent(size), _ => None)))
  }

  /** Whether `(x, y)` is a coordinate of a board of the given size. */
  predicate InBounds(size: int, x: int, y: int) {
    0 <= x < size && 0 <= y < size
  }

  /**
    The occupant of cell `(x, y)`, or `None` for an empty cell or a coordinate off the board:
    whatever the cells hold, only a coordinate on the board can read as a piece.
   */
  function Get<T>(s: Snapshot<T>, x: int, y: int): (r: Option<T>)
    requires WellShaped(s)
    ensures r.Some? ==> InBounds(s.size, x, y)
  {
    if InBounds(s.size, x, y) then s.grid[y][x] else None
  }

  /**
    Placing `piece` at `(x, y)`: whether it was placed, and the board afterwards. The cell's
    previous content, if any, is replaced; off the board nothing happens.
   */
  function Place<T>(s: Snapshot<T>, piece: T, x: int, y: int): (r: (bool, Snapshot<T>))
    requires WellShaped(s)
    ensures r.0 == InBounds(s.size, x, y)
    ensures WellShaped(r.1) && r.1.size == s.size
  {
    if InBounds(s.size, x, y) then
      (true, Snapshot(s.size, s.grid[y := s.grid[y][x := Some(piece)]]))
    else
      (false, s)
  }

  /** The bounds test admits exactly the coordinates that index a cell of the grid. */
  lemma InBoundsIsCellIndex<T>(s: Snapshot<T>, x: int, y: int)
    requires WellShaped(s)
    ensures InBounds(s.size, x, y) <==> 0 <= y < |s.grid| && 0 <= x < |s.grid[y]|
  {
  }

  /** Every coordinate of a freshly built board reads as empty. */
  lemma GetInit<T>(size: int, x: int, y: int)
    ensures Get(Init<T>(size), x, y) == None
  {
  }

  /** A board is determined by its size and what `Get` reads at every coordinate. */
  lemma Extensionality<T>(s: Snapshot<T>, t: Snapshot<T>)
    requires WellShaped(s) && WellShaped(t) && s.size == t.size
    requires forall x, y :: Get(s, x, y) == Get(t, x, y)
    ensures s == t
  {
    forall y | 0 <= y < |s.grid|
      ensures s.grid[y] == t.grid[y]
    {
      forall x | 0 <= x < |s.grid[y]|
        ensures s.grid[y][x] == t.grid[y][x]
      {
        assert Get(s, x, y) == Get(t, x, y);
      }
    }
  }

  /** Placing on the board succeeds, and the cell then reads as the piece placed. */
  lemma ReadAfterWrite<T>(s: Snapshot<T>, piece: T, x: int, y: int)
    requires WellShaped(s) && InBounds(s.size, x, y)
    ensures Place(s, piece, x, y).0
    ensures Get(Place(s, piece, x, y).1, x, y) == Some(piece)
  {
  }

  /** Placing changes no cell but `(x, y)`. */
  lemma PlaceFrame<T>(s: Snapshot<T>, piece: T, x: int, y: int, i: int, j: int)
    requires WellShaped(s) && (i, j) != (x, y)
    ensures Get(Place(s, piece, x, y).1, i, j) == Get(s, i, j)
  {
  }

  /** In particular the transposed cell `(y, x)` keeps its content: the grid is indexed by row `y` first. */
  lemma PlaceKeepsTransposed<T>(s: Snapshot<T>, piece: T, x: int, y: int)
    requires WellShaped(s) && x != y
    ensures Get(Place(s, piece, x, y).1, y, x) == Get(s, y, x)
  {
    PlaceFrame(s, piece, x, y, y, x);
  }

  /** Off the board, placing fails and leaves the board as it was. */
  lemma PlaceOutOfBounds<T>(s: Snapshot<T>, piece: T, x: int, y: int)
    requires WellShaped(s) && !InBounds(s.size, x, y)
    ensures Place(s, piece, x, y) == (false, s)
  {
  }

  /** A cell holds one piece, not a stack: placing `b` where `a` was placed leaves the board as if `a` never was. */
  lemma PlaceOverwrites<T>(s: Snapshot<T>, a: T, b: T, x: int, y: int)
    requires WellShaped(s)
    ensures Place(Place(s, a, x, y).1, b, x, y) == Place(s, b, x, y)
  {
    var once := Place(s, b, x, y).1;
    var twice := Place(Place(s, a, x, y).1, b, x, y).1;
    forall i, j
      ensures Get(twice, i, j) == Get(once, i, j)
    {
      if (i, j) != (x, y) {
        PlaceFrame(Place(s, a, x, y).1, b, x, y, i, j);
        PlaceFrame(s, a, x, y, i, j);
        PlaceFrame(s, b, x, y, i, j);
      }
    }
    Extensionality(twice, once);
  }

  /** Placements at two different cells do not interfere: their order does not matter. */
  lemma PlaceCommutes<T>(s: Snapshot<T>, a: T, x1: int, y1: int, b: T, x2: int, y2: int)
    requires WellShaped(s) && (x1, y1) != (x2, y2)
    ensures Place(Place(s, a, x1, y1).1, b, x2, y2).1 == Place(Place(s, b, x2, y2).1, a, x1, y1).1
  {
    var sa := Place(s, a, x1, y1).1;
    var sb := Place(s, b, x2, y2).1;
    var ab := Place(sa, b, x2, y2).1;
    var ba := Place(sb, a, x1, y1).1;
    forall i, j
      ensures Get(ab, i, j) == Get(ba, i, j)
    {
      if (i, j) == (x1, y1) {
        PlaceFrame(sa, b, x2, y2, i, j);
      } else if (i, j) == (x2, y2) {
        PlaceFrame(sb, a, x1, y1, i, j);
      } else {
        PlaceFrame(sa, b, x2, y2, i, j);
        PlaceFrame(s, a, x1, y1, i, j);
        PlaceFrame(sb, a, x1, y1, i, j);
        PlaceFrame(s, b, x2, y2, i, j);
      }
    }
    Extensionality(ab, ba);
  }

  // ---------------------------------------------------------------------------
  // The board as an object
  // ---------------------------------------------------------------------------

  /** A board whose cells, held in a two-dimensional array, are overwritten in place. */
  class Board<T> {
    const size: int
    /** Row-major: `grid[y, x]` is the cell at column `x` of row `y`. */
    const grid: array2<Option<T>>

    /** The array has the board's shape. */
    ghost predicate Valid() {
      grid.Length0 == Extent(size) && grid.Length1 == Extent(size)
    }

    /** The board's current value. */
    ghost function Snap(): (s: Snapshot<T>)
      requires Valid()
      reads grid
      ensures s.size == size && WellShaped(s)
    {
      Snapshot(size, seq(grid.Length0, y requires 0 <= y < grid.Length0 reads grid =>
                       seq(grid.Length1, x requires 0 <= x < grid.Length1 reads grid => grid[y, x])))
    }

    /** A board of `size` rows of `size` empty cells; `DefaultSize` when no size is given. */
    constructor (size: int := DefaultSize)
      ensures Valid() && fresh(grid)
      ensures this.size == size && Snap() == Init(size)
    {
      this.size := size;
      grid := new Option<T>[Extent(size), Extent(size)]((_, _) => None);
      new;
      forall i, j ensures Get(Snap(), i, j) == Get(Init<T>(size), i, j) {
      }
      Extensionality(Snap(), Init(size));
    }

    /** Whether `(x, y)` lies on the board; it depends on `size` alone, which never changes. */
    predicate IsWithInBounds(x: int, y: int): (b: bool)
      requires Valid()
      ensures b <==> 0 <= y < grid.Length0 && 0 <= x < grid.Length1
    {
      InBounds(size, x, y)
    }

    /** The occupant of `(x, y)`, or `None` for an empty cell or a coordinate off the board. */
    function GetPiece(x: int, y: int): (r: Option<T>)
      requires Valid()
      reads grid
      ensures r == Get(Snap(), x, y)
    {
      if IsWithInBounds(x, y) then grid[y, x] else None
    }

    /** Puts `piece` into cell `(x, y)`, replacing what was there; refuses a coordinate off the board. */
    method PlacePiece(piece: T, x: int, y: int) returns (ok: bool)
      requires Valid()
      modifies grid
      ensures Valid()
      ensures (ok, Snap()) == Place(old(Snap()), piece, x, y)
      ensures ok == IsWithInBounds(x, y)
      ensures ok ==> GetPiece(x, y) == Some(piece)
      ensures forall i, j :: (i, j) != (x, y) ==> GetPiece(i, j) == old(GetPiece(i, j))
      ensures !ok ==> unchanged(grid)
    {
      ghost var before := Snap();
      if IsWithInBounds(x, y) {
        grid[y, x] := Some(piece);
        ok := true;
        forall i, j ensures Get(Snap(), i, j) == Get(Place(before, piece, x, y).1, i, j) {
          if (i, j) != (x, y) {
            PlaceFrame(before, piece, x, y, i, j);
          }
        }
        Extensionality(Snap(), Place(before, piece, x, y).1);
      } else {
        ok := false;
      }
      forall i, j | (i, j) != (x, y) ensures Get(Snap(), i, j) == Get(before, i, j) {
        PlaceFrame(before, piece, x, y, i, j);
      }
    }
  }

  /**
    A client of the default board: placing a piece stores that very record, so its own
    coordinates stay what they were; a second placement replaces the first; a coordinate
    off the board is refused.
   */
  method DefaultBoardScenario() {
    var board := new Board<Piece>();
    assert board.size == 9;
    GetInit<Piece>(DefaultSize, 4, 4);
    assert board.GetPiece(4, 4) == None;
    var sui := Piece(White, "Sui", 0, 0);
    var ok := board.PlacePiece(sui, 4, 4);
    assert ok && board.GetPiece(4, 4) == Some(sui);
    assert board.GetPiece(4, 4).value.x == 0 && board.GetPiece(4, 4).value.y == 0;
    var hyou := Piece(Black, "Hyou", 4, 4);
    ok := board.PlacePiece(hyou, 4, 4);
    assert ok && board.GetPiece(4, 4) == Some(hyou);
    ok := board.PlacePiece(sui, 9, 0);
    assert !ok && board.GetPiece(9, 0) == None;
  }
}
