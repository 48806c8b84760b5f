/**
  The constants of the chess model and its 10x12 bordered board. Square (row, column),
  both in 0..7 with row 0 = rank 1 and column 0 = file a, lives at index 21 + 10*row + column;
  the other 56 cells are a permanent off-board border.
 */
module Board {

  // Colours
  const WHITE: int := 0
  const BLACK: int := 1

  // Special square values
  const EMPTY: int := -1
  const INVALID: int := -2

  // Pieces
  const KING: int := 0
  const QUEEN: int := 1
  const ROOK: int := 2
  const BISHOP: int := 3
  const KNIGHT: int := 4
  const PAWN: int := 5

  // Coloured pieces: piece * 2 + colour
  const WK: int := 0
  const BK: int := 1
  const WQ: int := 2
  const BQ: int := 3
  const WR: int := 4
  const BR: int := 5
  const WB: int := 6
  const BB: int := 7
  const WN: int := 8
  const BN: int := 9
  const WP: int := 10
  const BP: int := 11

  // String conversion
  const COLORED_PIECE_SYMBOL: string := "KkQqRrBbNnPp"
  const PIECE_SYMBOL: string := "kqrbnp"
  const COLOR_SYMBOL: string := "wb"
  const ROW_SYMBOL: string := "12345678"
  const COLUMN_SYMBOL: string := "abcdefgh"

  type Color = c: int | 0 <= c < 2
  type PieceKind = p: int | 0 <= p < 6
  type ColoredPiece = cp: int | 0 <= cp < 12
  /** A row or a column of the playing area. */
  type Coord = x: int | 0 <= x < 8

  /** Combines a piece and a colour into one code, which `/ 2` and `% 2` take apart again. */
  function ColoredPieceOf(piece: PieceKind, color: Color): (cp: ColoredPiece)
    ensures cp / 2 == piece && cp % 2 == color
    ensures COLORED_PIECE_SYMBOL[cp] == if color == WHITE then (PIECE_SYMBOL[piece] as int - 32) as char else PIECE_SYMBOL[piece]
  {
    piece * 2 + color
  }

  // ---------------------------------------------------------------------------
  // Addressing
  // ---------------------------------------------------------------------------

  /** Cell `k` belongs to the 8x8 playing area. */
  predicate IsInterior(k: int) {
    21 <= k < 99 && 1 <= k % 10 <= 8
  }

  function RowOf(k: int): Coord
    requires IsInterior(k)
  {
    k / 10 - 2
  }

  function ColumnOf(k: int): Coord
    requires IsInterior(k)
  {
    k % 10 - 1
  }

  /** The index of a square. */
  function SquareIndex(row: Coord, column: Coord): (k: int)
    ensures IsInterior(k)
  {
    21 + 10 * row + column
  }

  /** The row and column can be read back from the index of a square. */
  lemma SquareCoords(row: Coord, column: Coord)
    ensures RowOf(SquareIndex(row, column)) == row && ColumnOf(SquareIndex(row, column)) == column
  {
  }

  /** Every interior cell is the index of exactly the square its row and column name. */
  lemma InteriorIsSquare(k: int)
    requires IsInterior(k)
    ensures SquareIndex(RowOf(k), ColumnOf(k)) == k
  {
  }

  // ---------------------------------------------------------------------------
  // Boards
  // ---------------------------------------------------------------------------

  /** 120 cells; border cells hold INVALID and playing cells hold EMPTY or a coloured piece. */
  predicate WellFormed(b: seq<int>) {
    && |b| == 120
    && forall k :: 0 <= k < 120 ==> if IsInterior(k) then EMPTY <= b[k] < 12 else b[k] == INVALID
  }

  type Board = b: seq<int> | WellFormed(b) witness InitialBoard(false)

  /** The pieces of the first rank, file a to file h. */
  const BACK_RANK: seq<PieceKind> := [ROOK, KNIGHT, BISHOP, QUEEN, KING, BISHOP, KNIGHT, ROOK]

  function StartCell(row: Coord, column: Coord): int {
    if row == 0 then ColoredPieceOf(BACK_RANK[column], WHITE)
    else if row == 1 then WP
    else if row == 6 then BP
    else if row == 7 then ColoredPieceOf(BACK_RANK[column], BLACK)
    else EMPTY
  }

  /** Cell `k` of the starting arrangement when `start` holds, of the empty board otherwise. */
  function InitialCell(k: int, start: bool): int {
    if !IsInterior(k) then INVALID
    else if start then StartCell(RowOf(k), ColumnOf(k))
    else EMPTY
  }

  /** The board `clear()` (`start` false) or `reset()` (`start` true) installs. */
  function InitialBoard(start: bool): (b: seq<int>)
    ensures |b| == 120 && forall k :: 0 <= k < 120 ==> b[k] == InitialCell(k, start)
  {
    seq(120, k => InitialCell(k, start))
  }

  /** The board `clear()` installs: every playing cell empty. */
  const EMPTY_BOARD: Board := InitialBoard(false)

  /** The board `reset()` installs: the standard starting arrangement. */
  const START_BOARD: Board := InitialBoard(true)

  /** The starting board is well formed and holds the arrangement `StartCell` describes. */
  lemma StartBoardLayout()
    ensures WellFormed(START_BOARD)
    ensures forall row: Coord, column: Coord :: START_BOARD[SquareIndex(row, column)] == StartCell(row, column)
  {
    InitialBoardLayout(true);
  }

  /** The kings start on e1 and e8. */
  lemma StartKings()
    ensures StartCell(0, 4) == WK && StartCell(7, 4) == BK
  {
  }

  /** Either initial board is well formed, and each square holds its `InitialCell`. */
  lemma InitialBoardLayout(start: bool)
    ensures WellFormed(InitialBoard(start))
    ensures forall row: Coord, column: Coord :: InitialBoard(start)[SquareIndex(row, column)] == InitialCell(SquareIndex(row, column), start)
    ensures start ==> forall row: Coord, column: Coord :: InitialCell(SquareIndex(row, column), start) == StartCell(row, column)
  {
    var b := InitialBoard(start);
    forall k | 0 <= k < 120
      ensures if IsInterior(k) then EMPTY <= b[k] < 12 else b[k] == INVALID
    {
      assert b[k] == InitialCell(k, start);
    }
    forall row: Coord, column: Coord
      ensures InitialCell(SquareIndex(row, column), start) == if start then StartCell(row, column) else EMPTY
    {
      SquareCoords(row, column);
    }
  }

  /** Writing a coloured piece or EMPTY into a playing cell keeps the border intact. */
  function SetCell(b: Board, row: Coord, column: Coord, value: int): (b': Board)
    requires EMPTY <= value < 12
    ensures Cell(b', row, column) == value
    ensures forall row': Coord, column': Coord :: row' != row || column' != column ==> Cell(b', row', column') == Cell(b, row', column')
  {
    var b' := b[SquareIndex(row, column) := value];
    forall row': Coord, column': Coord | row' != row || column' != column
      ensures b'[SquareIndex(row', column')] == b[SquareIndex(row', column')]
    {
      assert SquareIndex(row', column') != SquareIndex(row, column);
    }
    b'
  }

  /** The content of a playing cell. */
  function Cell(b: Board, row: Coord, column: Coord): (v: int)
    ensures EMPTY <= v < 12
  {
    b[SquareIndex(row, column)]
  }

  /** No playing cell holds a piece. */
  predicate IsEmptyBoard(b: Board) {
    forall row: Coord, column: Coord :: Cell(b, row, column) == EMPTY
  }

  /** Two boards with the same playing cells are equal: the border carries no information. */
  lemma BoardsEqual(a: Board, b: Board)
    requires forall row: Coord, column: Coord :: Cell(a, row, column) == Cell(b, row, column)
    ensures a == b
  {
    forall k | 0 <= k < 120
      ensures a[k] == b[k]
    {
      if IsInterior(k) {
        assert Cell(a, RowOf(k), ColumnOf(k)) == Cell(b, RowOf(k), ColumnOf(k));
      }
    }
  }
}
