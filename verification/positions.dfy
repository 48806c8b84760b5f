/**
  A chess position: the board, the side to move, the castle rights, the en-passant file,
  and two caches (legality and king locations) kept for a future legality checker. The
  accessors take the same string tokens as the `square`, `turn`, `castleRights`
  and `enPassant` methods of chess2.js and return `IllegalArgument` where the JavaScript throws it.
 */
module Positions {
  import opened Results
  import opened Strings
  import opened Board
  import opened Castling

  /** chess2.js's `_legal`: `true`, `false`, or `null` (not computed). */
  datatype Legality = Legal | Illegal | Unknown

  /** chess2.js's `_king`: the board index of each colour's king, -1 when unknown. */
  datatype KingCache = KingCache(white: int, black: int)

  const NO_KINGS: KingCache := KingCache(-1, -1)

  /** A column, or -1 for "no en-passant capture". */
  type EnPassantFile = f: int | -1 <= f < 8

  datatype Position = Position(
    board: Board,
    turn: Color,
    castleRights: CastleRights,
    enPassant: EnPassantFile,
    legal: Legality,
    kings: KingCache)

  /** The exception the accessors throw on a malformed argument, naming the accessor. */
  datatype IllegalArgument = IllegalArgument(fun: string)

  // ---------------------------------------------------------------------------
  // clear / reset
  // ---------------------------------------------------------------------------

  /** `clear()`: empty board, white to move, no castle rights, no en-passant, `_legal = false`. */
  function Clear(): (p: Position)
    ensures IsEmptyBoard(p.board)
    ensures p.turn == WHITE && p.castleRights == NO_CASTLE_RIGHTS && p.enPassant == -1
    ensures p.legal == Illegal && p.kings == NO_KINGS
  {
    Position(EMPTY_BOARD, WHITE, NO_CASTLE_RIGHTS, -1, Illegal, NO_KINGS)
  }

  /** `reset()`: the starting arrangement (see `ResetLayout`), every castle right, white to move, `_legal = true`. */
  function Reset(): (p: Position)
    ensures p.turn == WHITE && p.castleRights == ALL_CASTLE_RIGHTS && p.enPassant == -1
    ensures p.legal == Legal
  {
    Position(START_BOARD, WHITE, ALL_CASTLE_RIGHTS, -1, Legal, KingCache(25, 95))
  }

  /** The board `reset()` installs holds the starting arrangement. */
  lemma ResetLayout()
    ensures forall row: Coord, column: Coord :: Cell(Reset().board, row, column) == StartCell(row, column)
  {
    StartBoardLayout();
  }

  /** After `reset()` the kings stand on e1 and e8, and the king cache points at those two squares. */
  lemma ResetKings()
    ensures Cell(Reset().board, 0, 4) == WK && Cell(Reset().board, 7, 4) == BK
    ensures Reset().kings == KingCache(SquareIndex(0, 4), SquareIndex(7, 4))
  {
    ResetLayout();
    StartKings();
  }

  // ---------------------------------------------------------------------------
  // Token lookups
  // ---------------------------------------------------------------------------

  lemma ColumnSymbolLookup(ch: char)
    requires 'a' <= ch <= 'h'
    ensures IndexOf(COLUMN_SYMBOL, [ch]) == (ch as int) - ('a' as int)
  {
    var k := (ch as int) - ('a' as int);
    assert COLUMN_SYMBOL[k] == ch;
    IndexOfDistinct(COLUMN_SYMBOL, k);
  }

  lemma RowSymbolLookup(ch: char)
    requires '1' <= ch <= '8'
    ensures IndexOf(ROW_SYMBOL, [ch]) == (ch as int) - ('1' as int)
  {
    var k := (ch as int) - ('1' as int);
    assert ROW_SYMBOL[k] == ch;
    IndexOfDistinct(ROW_SYMBOL, k);
  }

  /** Looking up a symbol chess2.js itself prints gives back its index. */
  lemma SymbolLookups()
    ensures forall k :: 0 <= k < 6 ==> IndexOf(PIECE_SYMBOL, [PIECE_SYMBOL[k]]) == k
    ensures forall k :: 0 <= k < 2 ==> IndexOf(COLOR_SYMBOL, [COLOR_SYMBOL[k]]) == k
    ensures forall k :: 0 <= k < 8 ==> IndexOf(COLUMN_SYMBOL, [COLUMN_SYMBOL[k]]) == k
  {
    forall k | 0 <= k < 6 ensures IndexOf(PIECE_SYMBOL, [PIECE_SYMBOL[k]]) == k {
      IndexOfDistinct(PIECE_SYMBOL, k);
    }
    forall k | 0 <= k < 2 ensures IndexOf(COLOR_SYMBOL, [COLOR_SYMBOL[k]]) == k {
      IndexOfDistinct(COLOR_SYMBOL, k);
    }
    forall k | 0 <= k < 8 ensures IndexOf(COLUMN_SYMBOL, [COLUMN_SYMBOL[k]]) == k {
      IndexOfDistinct(COLUMN_SYMBOL, k);
    }
  }

  /** `'wb'.indexOf(t)` is 1 exactly for `t == "b"`: `""`, `"w"` and `"wb"` all select white. */
  lemma ColorLookup(t: string)
    ensures IndexOf(COLOR_SYMBOL, t) == BLACK <==> t == "b"
    ensures IndexOf(COLOR_SYMBOL, t) >= 0 <==> t in {"", "w", "b", "wb"}
  {
    var r := IndexOf(COLOR_SYMBOL, t);
    assert COLOR_SYMBOL[0..1] == "w" && COLOR_SYMBOL[1..2] == "b" && COLOR_SYMBOL[0..2] == "wb";
    if t == "b" {
      assert !OccursAt(COLOR_SYMBOL, t, 0);
      assert OccursAt(COLOR_SYMBOL, t, 1);
    }
    if t in {"", "w", "wb"} {
      assert OccursAt(COLOR_SYMBOL, t, 0);
    }
    if r >= 0 {
      assert COLOR_SYMBOL[r..r + |t|] == t;
      if |t| == 1 {
        assert r == 0 || r == 1;
      } else if |t| == 2 {
        assert r == 0;
      }
    }
  }

  // ---------------------------------------------------------------------------
  // square
  // ---------------------------------------------------------------------------

  /** The value a square accessor takes or returns: the text `-` for an empty square, or a piece and colour token. */
  datatype SquareValue = Text(text: string) | PieceValue(piece: string, color: string)

  const EMPTY_MARK: SquareValue := Text("-")

  /** `/^[a-h][1-8]$/`. */
  predicate IsSquareName(name: string) {
    |name| == 2 && 'a' <= name[0] <= 'h' && '1' <= name[1] <= '8'
  }

  /** The (row, column) a valid square name designates. */
  function SquareOf(name: string): (rc: (Coord, Coord))
    requires IsSquareName(name)
    ensures COLUMN_SYMBOL[rc.1] == name[0] && ROW_SYMBOL[rc.0] == name[1]
  {
    ColumnSymbolLookup(name[0]);
    RowSymbolLookup(name[1]);
    (IndexOf(ROW_SYMBOL, [name[1]]), IndexOf(COLUMN_SYMBOL, [name[0]]))
  }

  /** Different square names designate different squares. */
  lemma SquareOfInjective(a: string, b: string)
    requires IsSquareName(a) && IsSquareName(b) && a != b
    ensures SquareOf(a) != SquareOf(b)
  {
    assert a == [a[0], a[1]] && b == [b[0], b[1]];
  }

  /** `getSquare`: `-` for an empty square, else the piece and colour letters the code `piece*2+color` encodes. */
  function GetSquareAt(p: Position, row: Coord, column: Coord): (v: SquareValue)
    ensures v == EMPTY_MARK <==> Cell(p.board, row, column) == EMPTY
    ensures v.PieceValue? <==> Cell(p.board, row, column) != EMPTY
    ensures v.PieceValue? ==> IsAcceptedSquareValue(v) && |v.piece| == 1 && |v.color| == 1
    ensures v.PieceValue? ==> Cell(p.board, row, column) == IndexOf(PIECE_SYMBOL, v.piece) * 2 + IndexOf(COLOR_SYMBOL, v.color)
  {
    var cp := Cell(p.board, row, column);
    if cp < 0 then EMPTY_MARK
    else
      SymbolLookups();
      PieceValue([PIECE_SYMBOL[cp / 2]], [COLOR_SYMBOL[cp % 2]])
  }

  /** The values `setSquare` accepts: `-`, or a piece token found in `kqrbnp` and a colour token found in `wb`. */
  predicate IsAcceptedSquareValue(v: SquareValue) {
    match v
    case Text(t) => t == "-"
    case PieceValue(piece, color) => IsSubstring(piece, PIECE_SYMBOL) && IsSubstring(color, COLOR_SYMBOL)
  }

  /** `setSquare`: `None` where the JavaScript returns `false`. */
  function SetSquareAt(p: Position, row: Coord, column: Coord, value: SquareValue): (r: Option<Position>)
    ensures r.Some? <==> IsAcceptedSquareValue(value)
    ensures r.Some? ==> r.value.legal == Unknown
  {
    match value
    case Text(t) =>
      if t == "-" then Some(p.(board := SetCell(p.board, row, column, EMPTY), legal := Unknown)) else None
    case PieceValue(pieceToken, colorToken) =>
      var piece := IndexOf(PIECE_SYMBOL, pieceToken);
      var color := IndexOf(COLOR_SYMBOL, colorToken);
      if piece >= 0 && color >= 0 then
        Some(p.(board := SetCell(p.board, row, column, ColoredPieceOf(piece, color)), legal := Unknown))
      else None
  }

  /** `square(name)`: read one square by its algebraic name. */
  function GetSquare(p: Position, name: string): (r: Result<SquareValue, IllegalArgument>)
    ensures r.Failure? <==> !IsSquareName(name)
    ensures r.Failure? ==> r.error == IllegalArgument("Position#square()")
    ensures r.Success? ==> r.value == GetSquareAt(p, SquareOf(name).0, SquareOf(name).1)
  {
    if !IsSquareName(name) then Failure(IllegalArgument("Position#square()"))
    else
      var (row, column) := SquareOf(name);
      Success(GetSquareAt(p, row, column))
  }

  /** `square(name, value)`: write one square; a bad name or value is an illegal argument and nothing changes. */
  function SetSquare(p: Position, name: string, value: SquareValue): (r: Result<Position, IllegalArgument>)
    ensures r.Failure? <==> !IsSquareName(name) || !IsAcceptedSquareValue(value)
    ensures r.Failure? ==> r.error == IllegalArgument("Position#square()")
    ensures r.Success? ==> r.value.legal == Unknown
  {
    if !IsSquareName(name) then Failure(IllegalArgument("Position#square()"))
    else
      var (row, column) := SquareOf(name);
      match SetSquareAt(p, row, column, value)
      case None => Failure(IllegalArgument("Position#square()"))
      case Some(q) => Success(q)
  }

  /** What reading a square back returns after `value` was written to it. */
  function ReadBack(value: SquareValue): SquareValue
    requires IsAcceptedSquareValue(value)
  {
    match value
    case Text(_) => EMPTY_MARK
    case PieceValue(piece, color) =>
      PieceValue([PIECE_SYMBOL[IndexOf(PIECE_SYMBOL, piece)]], [COLOR_SYMBOL[IndexOf(COLOR_SYMBOL, color)]])
  }

  /**
    After a successful `square(name, value)`, `square(name)` returns the value written (for
    one-letter tokens, exactly `value`), every other square and every other field reads as
    before, and the legality cache is unknown.
   */
  lemma SetThenGetSquare(p: Position, name: string, value: SquareValue)
    requires SetSquare(p, name, value).Success?
    ensures var q := SetSquare(p, name, value).value;
      && GetSquare(q, name) == Success(ReadBack(value))
      && (value.PieceValue? && |value.piece| == 1 && |value.color| == 1 ==> ReadBack(value) == value)
      && (forall other :: IsSquareName(other) && other != name ==> GetSquare(q, other) == GetSquare(p, other))
      && q.turn == p.turn && q.castleRights == p.castleRights && q.enPassant == p.enPassant
      && q.kings == p.kings && q.legal == Unknown
  {
    var q := SetSquare(p, name, value).value;
    var rc := SquareOf(name);
    assert q == SetSquareAt(p, rc.0, rc.1, value).value;
    WrittenSquareReadsBack(p, rc.0, rc.1, value);
    if value.PieceValue? && |value.piece| == 1 && |value.color| == 1 {
      OneLetterReadBack(value);
    }
    forall other | IsSquareName(other) && other != name
      ensures GetSquare(q, other) == GetSquare(p, other)
    {
      SquareOfInjective(name, other);
      var rc' := SquareOf(other);
      OtherSquareUnchanged(p, rc.0, rc.1, value, rc'.0, rc'.1);
    }
  }

  lemma OtherSquareUnchanged(p: Position, row: Coord, column: Coord, value: SquareValue, row': Coord, column': Coord)
    requires SetSquareAt(p, row, column, value).Some?
    requires (row', column') != (row, column)
    ensures GetSquareAt(SetSquareAt(p, row, column, value).value, row', column') == GetSquareAt(p, row', column')
  {
    assert SquareIndex(row', column') != SquareIndex(row, column);
  }

  lemma WrittenSquareReadsBack(p: Position, row: Coord, column: Coord, value: SquareValue)
    requires SetSquareAt(p, row, column, value).Some?
    ensures GetSquareAt(SetSquareAt(p, row, column, value).value, row, column) == ReadBack(value)
  {
    SymbolLookups();
    if value.PieceValue? {
      var piece := IndexOf(PIECE_SYMBOL, value.piece);
      var color := IndexOf(COLOR_SYMBOL, value.color);
      var cp := ColoredPieceOf(piece, color);
      assert Cell(SetSquareAt(p, row, column, value).value.board, row, column) == cp;
    }
  }

  lemma OneLetterReadBack(value: SquareValue)
    requires IsAcceptedSquareValue(value) && value.PieceValue? && |value.piece| == 1 && |value.color| == 1
    ensures ReadBack(value) == value
  {
    var piece := IndexOf(PIECE_SYMBOL, value.piece);
    var color := IndexOf(COLOR_SYMBOL, value.color);
    assert PIECE_SYMBOL[piece..piece + 1] == value.piece;
    assert [PIECE_SYMBOL[piece]] == PIECE_SYMBOL[piece..piece + 1];
    assert COLOR_SYMBOL[color..color + 1] == value.color;
    assert [COLOR_SYMBOL[color]] == COLOR_SYMBOL[color..color + 1];
  }

  // ---------------------------------------------------------------------------
  // turn
  // ---------------------------------------------------------------------------

  /** `turn()`: `w` or `b`. */
  function GetTurn(p: Position): (t: string)
    ensures t == "w" || t == "b"
    ensures t == "b" <==> p.turn == BLACK
  {
    [COLOR_SYMBOL[p.turn]]
  }

  /**
    `turn(value)`: the token is looked up in `wb` as a substring, so `""`, `"w"` and `"wb"`
    select white and only `"b"` selects black; anything else is an illegal argument.
   */
  function SetTurn(p: Position, value: string): (r: Result<Position, IllegalArgument>)
    ensures r.Success? <==> value in {"", "w", "b", "wb"}
    ensures r.Failure? ==> r.error == IllegalArgument("Position#turn()")
    ensures r.Success? ==> GetTurn(r.value) == (if value == "b" then "b" else "w")
    ensures r.Success? ==> r.value == p.(turn := r.value.turn, legal := Unknown)
  {
    ColorLookup(value);
    var turn := IndexOf(COLOR_SYMBOL, value);
    if turn >= 0 then Success(p.(turn := turn, legal := Unknown))
    else Failure(IllegalArgument("Position#turn()"))
  }

  // ---------------------------------------------------------------------------
  // castleRights
  // ---------------------------------------------------------------------------

  /** The column the accessor's side token selects: `k` gives column 0 and `q` column 7, as chess2.js has it. */
  function SideColumn(side: string): Coord
    requires side == "k" || side == "q"
  {
    if side == "k" then 0 else 7
  }

  /** `getCastleRights`: whether bit `column` of the colour's mask is set. */
  function CastleRightAt(p: Position, color: Color, column: Coord): bool {
    HasBit(p.castleRights.Mask(color), column)
  }

  /** `setCastleRights`: sets or clears one bit of one colour's mask. */
  function SetCastleRightAt(p: Position, color: Color, column: Coord, value: bool): (q: Position)
    ensures CastleRightAt(q, color, column) == value
    ensures forall c: Color, k: Coord :: c != color || k != column ==> CastleRightAt(q, c, k) == CastleRightAt(p, c, k)
    ensures q == p.(castleRights := q.castleRights, legal := Unknown)
  {
    var mask := p.castleRights.Mask(color);
    var mask' := if value then mask | Bit(column) else mask & !Bit(column);
    UpdateBit(mask, column, value);
    p.(castleRights := WithMask(p.castleRights, color, mask'), legal := Unknown)
  }

  /** The rights with one colour's mask replaced. */
  function WithMask(cr: CastleRights, color: Color, mask: bv8): (r: CastleRights)
    ensures r.Mask(color) == mask && r.Mask(1 - color) == cr.Mask(1 - color)
  {
    if color == WHITE then cr.(white := mask) else cr.(black := mask)
  }

  /** Setting or clearing bit `column` changes that bit and no other. */
  lemma UpdateBit(mask: bv8, column: Coord, value: bool)
    ensures var mask' := if value then mask | Bit(column) else mask & !Bit(column);
      && HasBit(mask', column) == value
      && forall k: Coord :: k != column ==> HasBit(mask', k) == HasBit(mask, k)
  {
    var mask' := if value then mask | Bit(column) else mask & !Bit(column);
    forall k: Coord | k != column
      ensures HasBit(mask', k) == HasBit(mask, k)
    {
      assert Bit(k) & Bit(column) == 0;
    }
  }

  /** The checks `castleRights(color, side)` makes before reading or writing: side `k` or `q`, colour found in `wb`. */
  function CastleTarget(color: string, side: string): (r: Result<(Color, Coord), IllegalArgument>)
    ensures r.Success? <==> (side == "k" || side == "q") && IsSubstring(color, COLOR_SYMBOL)
    ensures r.Failure? ==> r.error == IllegalArgument("Position#castleRights()")
    ensures r.Success? ==> r.value == (IndexOf(COLOR_SYMBOL, color), SideColumn(side))
  {
    if !(side == "k" || side == "q") then Failure(IllegalArgument("Position#castleRights()"))
    else
      var c := IndexOf(COLOR_SYMBOL, color);
      if c < 0 then Failure(IllegalArgument("Position#castleRights()"))
      else Success((c, SideColumn(side)))
  }

  /** `castleRights(color, side)`. */
  function GetCastleRights(p: Position, color: string, side: string): (r: Result<bool, IllegalArgument>)
    ensures r.Failure? <==> CastleTarget(color, side).Failure?
    ensures r.Failure? ==> r.error == IllegalArgument("Position#castleRights()")
    ensures r.Success? ==> r.value == CastleRightAt(p, CastleTarget(color, side).value.0, CastleTarget(color, side).value.1)
  {
    match CastleTarget(color, side)
    case Failure(e) => Failure(e)
    case Success((c, column)) => Success(CastleRightAt(p, c, column))
  }

  /** `castleRights(color, side, value)`. */
  function SetCastleRights(p: Position, color: string, side: string, value: bool): (r: Result<Position, IllegalArgument>)
    ensures r.Failure? <==> CastleTarget(color, side).Failure?
    ensures r.Failure? ==> r.error == IllegalArgument("Position#castleRights()")
    ensures r.Success? ==> r.value.legal == Unknown
  {
    match CastleTarget(color, side)
    case Failure(e) => Failure(e)
    case Success((c, column)) => Success(SetCastleRightAt(p, c, column, value))
  }

  /**
    After a successful `castleRights(color, side, value)`, reading the same colour and side
    gives `value`, the other colour/side pairs read as before, board, turn and en-passant are
    untouched, and the legality cache is unknown.
   */
  lemma SetThenGetCastleRights(p: Position, color: string, side: string, value: bool)
    requires SetCastleRights(p, color, side, value).Success?
    ensures var q := SetCastleRights(p, color, side, value).value;
      && GetCastleRights(q, color, side) == Success(value)
      && (forall color', side' :: CastleTarget(color', side').Success? && CastleTarget(color', side') != CastleTarget(color, side)
            ==> GetCastleRights(q, color', side') == GetCastleRights(p, color', side'))
      && q.board == p.board && q.turn == p.turn && q.enPassant == p.enPassant && q.kings == p.kings
      && q.legal == Unknown
  {
  }

  /** The side tokens are swapped with respect to FEN: white `k` is the right FEN prints as `Q`. */
  lemma KingsideTokenIsFenQueenside(p: Position)
    requires p.castleRights == NO_CASTLE_RIGHTS
    ensures SetCastleRights(p, "w", "k", true).Success?
    ensures ToString(SetCastleRights(p, "w", "k", true).value.castleRights) == "Q"
    ensures ToString(SetCastleRights(p, "w", "q", true).value.castleRights) == "K"
  {
    ColorLookup("w");
  }

  // ---------------------------------------------------------------------------
  // enPassant
  // ---------------------------------------------------------------------------

  /** `enPassant()`: `-` or the file letter. */
  function GetEnPassant(p: Position): (t: string)
    ensures t == "-" <==> p.enPassant == -1
    ensures t != "-" ==> |t| == 1 && COLUMN_SYMBOL[p.enPassant] == t[0]
  {
    if p.enPassant < 0 then "-" else [COLUMN_SYMBOL[p.enPassant]]
  }

  /** `enPassant(value)`: `-` clears it; otherwise the token is looked up in `abcdefgh` as a substring. */
  function SetEnPassant(p: Position, value: string): (r: Result<Position, IllegalArgument>)
    ensures r.Success? <==> value == "-" || IsSubstring(value, COLUMN_SYMBOL)
    ensures r.Failure? ==> r.error == IllegalArgument("Position#enPassant()")
    ensures r.Success? ==> r.value == p.(enPassant := r.value.enPassant, legal := Unknown)
    ensures r.Success? && value == "-" ==> GetEnPassant(r.value) == "-"
    ensures r.Success? && value != "-" ==> GetEnPassant(r.value) == [COLUMN_SYMBOL[IndexOf(COLUMN_SYMBOL, value)]]
  {
    if value == "-" then Success(p.(enPassant := -1, legal := Unknown))
    else
      var file := IndexOf(COLUMN_SYMBOL, value);
      if file >= 0 then Success(p.(enPassant := file, legal := Unknown))
      else Failure(IllegalArgument("Position#enPassant()"))
  }

  /** Writing a single file letter and reading it back gives that letter. */
  lemma SetThenGetEnPassant(p: Position, ch: char)
    requires 'a' <= ch <= 'h'
    ensures SetEnPassant(p, [ch]).Success? && GetEnPassant(SetEnPassant(p, [ch]).value) == [ch]
  {
    ColumnSymbolLookup(ch);
    assert COLUMN_SYMBOL[(ch as int) - ('a' as int)] == ch;
  }
}
