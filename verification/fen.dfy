/**
  The FEN codec of a position: `_getFEN` renders the board rank by rank (rank 8 first,
  runs of empty squares as a digit), then the side to move, the castle rights, the
  en-passant square and the two move counters; `_setFEN` checks the same six fields in that
  order and reports the first failure, in a strict or a lenient mode.
 */
module FenCodec {
  import opened Results
  import opened Strings
  import opened Board
  import opened Castling
  import opened Positions

  /** Why a FEN text was rejected; the board failures carry the character or the sub-field index. */
  datatype FenFailure =
    | WrongNumberOfFenFields
    | WrongNumberOfSubfieldsInBoardField
    | UnexpectedCharacterInBoardField(character: char)
    | UnexpectedEndOfSubfieldInBoardField(subfield: nat)
    | InvalidTurnField
    | InvalidCastleRightsField
    | InvalidEnPassantField
    | WrongRowInEnPassantField
    | InvalidMoveCountingField(field: nat)

  /** The `InvalidFEN` exception: the trimmed text and the failure. */
  datatype InvalidFen = InvalidFen(fen: string, failure: FenFailure)

  datatype Counters = Counters(fiftyMoveClock: nat, fullMoveNumber: nat)

  /** What a successful decode yields: the position and the two move counters. */
  datatype Decoded = Decoded(position: Position, counters: Counters)

  // ---------------------------------------------------------------------------
  // Rank texts
  // ---------------------------------------------------------------------------

  /** A character a board sub-field may hold: a run length 1 to 8 or a coloured piece letter. */
  predicate IsRankChar(ch: char) {
    || ('1' <= ch <= '8')
    || ch == 'K' || ch == 'k' || ch == 'Q' || ch == 'q' || ch == 'R' || ch == 'r'
    || ch == 'B' || ch == 'b' || ch == 'N' || ch == 'n' || ch == 'P' || ch == 'p'
  }

  /** The letters among the rank characters are exactly those of `COLORED_PIECE_SYMBOL`. */
  lemma PieceLetterIsRankChar(ch: char)
    requires !('1' <= ch <= '8')
    ensures IsRankChar(ch) <==> ch in COLORED_PIECE_SYMBOL
  {
    if ch in COLORED_PIECE_SYMBOL {
      var k :| 0 <= k < |COLORED_PIECE_SYMBOL| && COLORED_PIECE_SYMBOL[k] == ch;
      assert COLORED_PIECE_SYMBOL == "KkQqRrBbNnPp";
    }
  }

  predicate AllRankChars(s: string) {
    forall i :: 0 <= i < |s| ==> IsRankChar(s[i])
  }

  /** The number of squares a rank text covers: a digit its value, any other character one. */
  function RankWidth(s: string): nat
    decreases |s|
  {
    if |s| == 0 then 0
    else (if '1' <= s[0] <= '8' then DigitValue(s[0]) else 1) + RankWidth(s[1..])
  }

  lemma {:induction false} RankWidthAppend(x: string, y: string)
    ensures RankWidth(x + y) == RankWidth(x) + RankWidth(y)
    decreases |x|
  {
    if |x| > 0 {
      assert (x + y)[0] == x[0] && (x + y)[1..] == x[1..] + y;
      RankWidthAppend(x[1..], y);
    } else {
      assert x + y == y;
    }
  }

  /** Two run lengths never follow each other. */
  predicate NoAdjacentDigits(s: string) {
    |s| < 2 || (!(IsDigit(s[0]) && IsDigit(s[1])) && NoAdjacentDigits(s[1..]))
  }

  lemma {:induction false} NoAdjacentDigitsAppend(x: string, y: string)
    requires NoAdjacentDigits(x) && NoAdjacentDigits(y)
    requires |x| == 0 || |y| == 0 || !IsDigit(x[|x| - 1]) || !IsDigit(y[0])
    ensures NoAdjacentDigits(x + y)
    decreases |x|
  {
    if |x| == 0 {
      assert x + y == y;
    } else {
      assert (x + y)[1..] == x[1..] + y;
      if |x| >= 2 {
        NoAdjacentDigitsAppend(x[1..], y);
      } else {
        assert x[1..] + y == y;
      }
    }
  }

  /** A rank text in the form the encoder writes. */
  predicate IsCanonicalRank(s: string) {
    AllRankChars(s) && RankWidth(s) == 8 && NoAdjacentDigits(s)
  }

  // ---------------------------------------------------------------------------
  // Encoder
  // ---------------------------------------------------------------------------

  /** The digit for a run of `run` empty squares, or nothing when there is no run. */
  function PendingRun(run: nat): (s: string)
    requires run <= 8
    ensures AllRankChars(s) && RankWidth(s) == run && |s| <= 1 && NoAdjacentDigits(s)
  {
    if run == 0 then "" else [DigitChar(run)]
  }

  lemma PieceLetters()
    ensures forall cp :: 0 <= cp < 12 ==> IsRankChar(COLORED_PIECE_SYMBOL[cp]) && !IsDigit(COLORED_PIECE_SYMBOL[cp])
    ensures forall i, j :: 0 <= i < j < 12 ==> COLORED_PIECE_SYMBOL[i] != COLORED_PIECE_SYMBOL[j]
  {
  }

  /** The cells of row `r` from column `c` on. */
  function RowFrom(b: Board, r: Coord, c: nat): (cells: seq<int>)
    requires c <= 8
    ensures |cells| == 8 - c && forall i :: 0 <= i < |cells| ==> cells[i] == Cell(b, r, c + i)
  {
    seq(8 - c, i requires 0 <= i < 8 - c => Cell(b, r, c + i))
  }

  /**
    Encodes a run of cells preceded by `run` empty squares not yet written: the text covers
    exactly those squares and never writes two run lengths in a row.
   */
  function EncodeCells(cells: seq<int>, run: nat): (s: string)
    requires run + |cells| <= 8 && forall i :: 0 <= i < |cells| ==> EMPTY <= cells[i] < 12
    ensures AllRankChars(s) && RankWidth(s) == |cells| + run && NoAdjacentDigits(s)
    decreases |cells|
  {
    if |cells| == 0 then PendingRun(run)
    else if cells[0] < 0 then EncodeCells(cells[1..], run + 1)
    else
      var rest := EncodeCells(cells[1..], 0);
      var head := PendingRun(run) + [COLORED_PIECE_SYMBOL[cells[0]]];
      PieceLetters();
      RankWidthAppend(PendingRun(run), [COLORED_PIECE_SYMBOL[cells[0]]]);
      RankWidthAppend(head, rest);
      NoAdjacentDigitsAppend(PendingRun(run), [COLORED_PIECE_SYMBOL[cells[0]]]);
      NoAdjacentDigitsAppend(head, rest);
      head + rest
  }

  /** Columns `c` to 7 of row `r`, where the `run` squares before column `c` are empty and not yet written. */
  function EncodeRankFrom(b: Board, r: Coord, c: nat, run: nat): (s: string)
    requires run <= c <= 8
    ensures AllRankChars(s) && RankWidth(s) == 8 - c + run && NoAdjacentDigits(s)
  {
    EncodeCells(RowFrom(b, r, c), run)
  }

  /** One board sub-field, as `_getFEN` writes it. */
  function EncodeRank(b: Board, r: Coord): (s: string)
    ensures IsCanonicalRank(s) && |s| > 0
  {
    EncodeRankFrom(b, r, 0, 0)
  }

  /** The eight sub-fields, rank 8 first. */
  function RankFields(b: Board): (ranks: seq<string>)
    ensures |ranks| == 8 && forall i :: 0 <= i < 8 ==> ranks[i] == EncodeRank(b, 7 - i)
  {
    seq(8, i requires 0 <= i < 8 => EncodeRank(b, 7 - i))
  }

  function BoardField(b: Board): string {
    Join(RankFields(b), '/')
  }

  /** `-`, or the file letter and the row of the square the capturing pawn would move to. */
  function EnPassantField(p: Position): (s: string)
    ensures s == "-" <==> p.enPassant == -1
    ensures s != "-" ==> |s| == 2 && s[0] == COLUMN_SYMBOL[p.enPassant] && s[1] == (if p.turn == WHITE then '6' else '3')
  {
    if p.enPassant < 0 then "-" else [COLUMN_SYMBOL[p.enPassant], if p.turn == WHITE then '6' else '3']
  }

  /** The six fields `_getFEN` joins with single spaces; each is a non-empty word. */
  function FenFields(p: Position, fiftyMoveClock: nat, fullMoveNumber: nat): (fields: seq<string>)
    ensures |fields| == 6
    ensures forall i :: 0 <= i < |fields| ==> |fields[i]| > 0 && NoWhitespace(fields[i])
  {
    BoardFieldIsWord(p.board);
    TurnFieldIsWord(p);
    CastleFieldIsWord(p.castleRights);
    EnPassantFieldIsWord(p);
    NumberIsWord(fiftyMoveClock);
    NumberIsWord(fullMoveNumber);
    SixWords(BoardField(p.board), GetTurn(p), Castling.ToString(p.castleRights), EnPassantField(p),
      NatToString(fiftyMoveClock), NatToString(fullMoveNumber));
    [BoardField(p.board), GetTurn(p), Castling.ToString(p.castleRights), EnPassantField(p),
     NatToString(fiftyMoveClock), NatToString(fullMoveNumber)]
  }

  /** `_getFEN(fiftyMoveClock, fullMoveNumber)`: trimming and splitting the text on whitespace gives the six fields back. */
  function GetFen(p: Position, fiftyMoveClock: nat, fullMoveNumber: nat): (fen: string)
    ensures SplitWs(Trim(fen)) == FenFields(p, fiftyMoveClock, fullMoveNumber)
  {
    SplitWsJoinTrimmed(FenFields(p, fiftyMoveClock, fullMoveNumber));
    Join(FenFields(p, fiftyMoveClock, fullMoveNumber), ' ')
  }

  // ---------------------------------------------------------------------------
  // Decoder
  // ---------------------------------------------------------------------------

  /**
    The scan of one board sub-field for row `r`, from column `c` on: a run length skips
    squares, a piece letter is written at column `c`, anything else is an unexpected
    character; the scan stops once eight squares are covered, and then the text must be
    exhausted at exactly column 8. Only row `r` changes.
   */
  function ParseRankFrom(s: string, b: Board, r: Coord, c: nat): (res: Result<Board, FenFailure>)
    ensures res.Failure? ==> res.error.UnexpectedCharacterInBoardField? || res.error == UnexpectedEndOfSubfieldInBoardField(7 - r)
    ensures res.Success? ==> forall row: Coord, column: Coord :: row != r || column < c ==> Cell(res.value, row, column) == Cell(b, row, column)
    decreases |s|
  {
    if |s| > 0 && c < 8 then
      var ch := s[0];
      var cp := IndexOf(COLORED_PIECE_SYMBOL, [ch]);
      if '1' <= ch <= '8' then ParseRankFrom(s[1..], b, r, c + DigitValue(ch))
      else if cp >= 0 then ParseRankFrom(s[1..], SetCell(b, r, c, cp), r, c + 1)
      else Failure(UnexpectedCharacterInBoardField(ch))
    else if |s| != 0 || c != 8 then Failure(UnexpectedEndOfSubfieldInBoardField(7 - r))
    else Success(b)
  }

  /** The sub-fields for rows `r` down to 0; sub-field `7 - r` describes row `r`. */
  function ParseRanks(ranks: seq<string>, r: int, b: Board): (res: Result<Board, FenFailure>)
    requires |ranks| == 8 && -1 <= r <= 7
    ensures res.Failure? ==> res.error.UnexpectedCharacterInBoardField? || res.error.UnexpectedEndOfSubfieldInBoardField?
    decreases r + 1
  {
    if r < 0 then Success(b)
    else
      match ParseRankFrom(ranks[7 - r], b, r, 0)
      case Failure(f) => Failure(f)
      case Success(b') => ParseRanks(ranks, r - 1, b')
  }

  /** `/^[a-h][36]$/`. */
  predicate IsEnPassantSquare(field: string) {
    |field| == 2 && 'a' <= field[0] <= 'h' && (field[1] == '3' || field[1] == '6')
  }

  /** The en-passant field; in strict mode the row must be the one the side to move captures towards. */
  function ParseEnPassant(field: string, turn: Color, strict: bool): (r: Result<EnPassantFile, FenFailure>)
    ensures r.Success? && field == "-" ==> r.value == -1
    ensures r.Success? && field != "-" ==> |field| == 2 && 0 <= r.value < 8 && COLUMN_SYMBOL[r.value] == field[0]
    ensures r.Success? <==> field == "-" || (IsEnPassantSquare(field) && !(strict && field[1] != (if turn == WHITE then '6' else '3')))
  {
    if field == "-" then Success(-1)
    else if !IsEnPassantSquare(field) then Failure(InvalidEnPassantField)
    else if strict && ((field[1] == '3' && turn == WHITE) || (field[1] == '6' && turn == BLACK)) then Failure(WrongRowInEnPassantField)
    else
      ColumnSymbolLookup(field[0]);
      Success(IndexOf(COLUMN_SYMBOL, [field[0]]))
  }

  /** The move-counter grammar: `/^(?:0|[1-9][0-9]*)$/` when strict, `/^[0-9]+$/` otherwise. */
  predicate IsCounterText(s: string, strict: bool) {
    if strict then IsCanonicalNumber(s) else IsDigits(s)
  }

  /** Everything after the two field-count checks, in the order `_setFEN` checks them. */
  function DecodeFields(fields: seq<string>, ranks: seq<string>, strict: bool): (r: Result<Decoded, FenFailure>)
    requires |fields| == 6 && |ranks| == 8
    ensures r.Failure? ==> !r.error.WrongNumberOfFenFields? && !r.error.WrongNumberOfSubfieldsInBoardField?
    ensures r.Success? ==> r.value.position.legal == Unknown && r.value.position.kings == NO_KINGS
    ensures r.Success? ==> FenBits(r.value.position.castleRights) == r.value.position.castleRights
  {
    match ParseRanks(ranks, 7, EMPTY_BOARD)
    case Failure(f) => Failure(f)
    case Success(board) => DecodeMeta(fields, board, strict)
  }

  /**
    What the en-passant and counter fields decode to: no file exactly for `-`, otherwise the
    file of the field's letter; each counter is `parseInt` of its digit run.
   */
  predicate TailDecoded(fields: seq<string>, d: Decoded)
    requires |fields| == 6
  {
    && (fields[3] == "-" <==> d.position.enPassant == -1)
    && (d.position.enPassant >= 0 ==> |fields[3]| == 2 && COLUMN_SYMBOL[d.position.enPassant] == fields[3][0])
    && IsDigits(fields[4]) && IsDigits(fields[5])
    && d.counters == Counters(ParseDecimal(fields[4]), ParseDecimal(fields[5]))
  }

  /** The turn and castle-rights fields. */
  function DecodeMeta(fields: seq<string>, board: Board, strict: bool): (r: Result<Decoded, FenFailure>)
    requires |fields| == 6
    ensures r.Failure? ==> r.error in {InvalidTurnField, InvalidCastleRightsField, InvalidEnPassantField,
                                       WrongRowInEnPassantField, InvalidMoveCountingField(4), InvalidMoveCountingField(5)}
    ensures r.Success? ==> r.value.position.legal == Unknown && r.value.position.kings == NO_KINGS
    ensures r.Success? ==> FenBits(r.value.position.castleRights) == r.value.position.castleRights
    ensures r.Success? ==> r.value.position.board == board
    ensures r.Success? ==> (r.value.position.turn == BLACK <==> fields[1] == "b")
    ensures r.Success? ==> Castling.FromString(fields[2], strict) == Some(r.value.position.castleRights)
    ensures r.Success? ==> TailDecoded(fields, r.value)
  {
    ColorLookup(fields[1]);
    var turn := IndexOf(COLOR_SYMBOL, fields[1]);
    if turn < 0 then Failure(InvalidTurnField)
    else
      match Castling.FromString(fields[2], strict)
      case None => Failure(InvalidCastleRightsField)
      case Some(rights) => DecodeTail(fields, board, turn, rights, strict)
  }

  /** The en-passant field and the two move counters. */
  function DecodeTail(fields: seq<string>, board: Board, turn: Color, rights: CastleRights, strict: bool): (r: Result<Decoded, FenFailure>)
    requires |fields| == 6
    ensures r.Failure? ==> r.error in {InvalidEnPassantField, WrongRowInEnPassantField, InvalidMoveCountingField(4), InvalidMoveCountingField(5)}
    ensures r.Success? ==> r.value.position == Position(board, turn, rights, r.value.position.enPassant, Unknown, NO_KINGS)
    ensures r.Success? ==> TailDecoded(fields, r.value)
  {
    match ParseEnPassant(fields[3], turn, strict)
    case Failure(f) => Failure(f)
    case Success(file) =>
      if !IsCounterText(fields[4], strict) then Failure(InvalidMoveCountingField(4))
      else if !IsCounterText(fields[5], strict) then Failure(InvalidMoveCountingField(5))
      else
        Success(Decoded(
          Position(board, turn, rights, file, Unknown, NO_KINGS),
          Counters(ParseDecimal(fields[4]), ParseDecimal(fields[5]))))
  }

  /**
    `_setFEN` without its side effects: trim, split on whitespace into six fields, split the
    first on `/` into eight sub-fields, then decode. A decoded position has no legality or
    king information yet.
   */
  function DecodeFen(fen: string, strict: bool): (r: Result<Decoded, InvalidFen>)
    ensures r.Failure? ==> r.error.fen == Trim(fen)
    ensures r.Failure? && r.error.failure == WrongNumberOfFenFields <==> |SplitWs(Trim(fen))| != 6
    ensures r.Failure? && r.error.failure == WrongNumberOfSubfieldsInBoardField
      <==> |SplitWs(Trim(fen))| == 6 && |Split(SplitWs(Trim(fen))[0], '/')| != 8
    ensures r.Success? ==> r.value.position.legal == Unknown && r.value.position.kings == NO_KINGS
    ensures r.Success? ==> FenBits(r.value.position.castleRights) == r.value.position.castleRights
  {
    var text := Trim(fen);
    var fields := SplitWs(text);
    if |fields| != 6 then Failure(InvalidFen(text, WrongNumberOfFenFields))
    else
      var ranks := Split(fields[0], '/');
      if |ranks| != 8 then Failure(InvalidFen(text, WrongNumberOfSubfieldsInBoardField))
      else
        match DecodeFields(fields, ranks, strict)
        case Failure(f) => Failure(InvalidFen(text, f))
        case Success(d) => Success(d)
  }

  // ---------------------------------------------------------------------------
  // Encode, then decode
  // ---------------------------------------------------------------------------

  lemma RankCharsAreWordChars()
    ensures forall ch :: IsRankChar(ch) ==> !IsWhitespace(ch) && ch != '/'
  {
  }

  /** `res` is `dst` with row `r` from column `from` on taken from `src`. */
  predicate RowCopied(res: Board, src: Board, dst: Board, r: Coord, from: int) {
    forall row: Coord, column: Coord :: Cell(res, row, column) ==
      if row == r && from <= column then Cell(src, row, column) else Cell(dst, row, column)
  }

  lemma RunStep(t: string, b: Board, r: Coord, c: nat, run: nat)
    requires 1 <= run <= 8 && c < 8
    ensures ParseRankFrom([DigitChar(run)] + t, b, r, c) == ParseRankFrom(t, b, r, c + run)
  {
    var s := [DigitChar(run)] + t;
    assert s[0] == DigitChar(run) && s[1..] == t;
  }

  lemma PieceStep(t: string, b: Board, r: Coord, c: nat, cp: ColoredPiece)
    requires c < 8
    ensures ParseRankFrom([COLORED_PIECE_SYMBOL[cp]] + t, b, r, c) == ParseRankFrom(t, SetCell(b, r, c, cp), r, c + 1)
  {
    var s := [COLORED_PIECE_SYMBOL[cp]] + t;
    assert s[0] == COLORED_PIECE_SYMBOL[cp] && s[1..] == t;
    PieceLetters();
    IndexOfDistinct(COLORED_PIECE_SYMBOL, cp);
  }

  /** Copying from column `c + 1` onto a board with `src`'s piece at `c` and empty cells before it is copying from `from`. */
  lemma RowCopiedWiden(res: Board, src: Board, dst: Board, r: Coord, c: Coord, from: int)
    requires from <= c
    requires forall column: Coord :: from <= column < c ==> Cell(dst, r, column) == EMPTY && Cell(src, r, column) == EMPTY
    requires RowCopied(res, src, SetCell(dst, r, c, Cell(src, r, c)), r, c + 1)
    ensures RowCopied(res, src, dst, r, from)
  {
  }

  lemma EncodeEmptyStep(src: Board, r: Coord, c: Coord, run: nat)
    requires run <= c && Cell(src, r, c) == EMPTY
    ensures EncodeRankFrom(src, r, c, run) == EncodeRankFrom(src, r, c + 1, run + 1)
  {
    assert RowFrom(src, r, c)[1..] == RowFrom(src, r, c + 1);
  }

  lemma EncodePieceStep(src: Board, r: Coord, c: Coord, run: nat)
    requires run <= c && Cell(src, r, c) != EMPTY
    ensures EncodeRankFrom(src, r, c, run) == PendingRun(run) + [COLORED_PIECE_SYMBOL[Cell(src, r, c)]] + EncodeRankFrom(src, r, c + 1, 0)
  {
    assert RowFrom(src, r, c)[1..] == RowFrom(src, r, c + 1);
  }

  /** The rest of the row after column `c`: empty cells before it and the scan's result after it. */
  lemma ScanEnd(src: Board, dst: Board, r: Coord, run: nat)
    requires run <= 8
    requires forall column: Coord :: 8 - run <= column ==> Cell(dst, r, column) == EMPTY && Cell(src, r, column) == EMPTY
    ensures ParseRankFrom(PendingRun(run), dst, r, 8 - run) == Success(dst)
    ensures RowCopied(dst, src, dst, r, 8 - run)
  {
    if run > 0 {
      RunStep("", dst, r, 8 - run, run);
      assert [DigitChar(run)] + "" == PendingRun(run);
    }
  }

  /**
    The scan reads back what the encoder wrote: started where the pending run began, on a row
    that is empty from there on, it succeeds and leaves that part of the row as in `src`.
   */
  lemma {:induction false} EncodedRankParses(src: Board, r: Coord, c: nat, run: nat, dst: Board)
    requires run <= c <= 8
    requires forall column: Coord :: c - run <= column ==> Cell(dst, r, column) == EMPTY
    requires forall column: Coord :: c - run <= column < c ==> Cell(src, r, column) == EMPTY
    ensures var res := ParseRankFrom(EncodeRankFrom(src, r, c, run), dst, r, c - run);
      res.Success? && RowCopied(res.value, src, dst, r, c - run)
    decreases 8 - c
  {
    if c == 8 {
      ScanEnd(src, dst, r, run);
    } else if Cell(src, r, c) == EMPTY {
      EncodedEmptyParses(src, r, c, run, dst);
    } else {
      EncodedPieceParses(src, r, c, run, dst);
    }
  }

  lemma {:induction false} EncodedEmptyParses(src: Board, r: Coord, c: Coord, run: nat, dst: Board)
    requires run <= c && Cell(src, r, c) == EMPTY
    requires forall column: Coord :: c - run <= column ==> Cell(dst, r, column) == EMPTY
    requires forall column: Coord :: c - run <= column < c ==> Cell(src, r, column) == EMPTY
    ensures var res := ParseRankFrom(EncodeRankFrom(src, r, c, run), dst, r, c - run);
      res.Success? && RowCopied(res.value, src, dst, r, c - run)
    decreases 8 - c, 0
  {
    EncodeEmptyStep(src, r, c, run);
    EncodedRankParses(src, r, c + 1, run + 1, dst);
  }

  lemma {:induction false} EncodedPieceParses(src: Board, r: Coord, c: Coord, run: nat, dst: Board)
    requires run <= c && Cell(src, r, c) != EMPTY
    requires forall column: Coord :: c - run <= column ==> Cell(dst, r, column) == EMPTY
    requires forall column: Coord :: c - run <= column < c ==> Cell(src, r, column) == EMPTY
    ensures var res := ParseRankFrom(EncodeRankFrom(src, r, c, run), dst, r, c - run);
      res.Success? && RowCopied(res.value, src, dst, r, c - run)
    decreases 8 - c, 0
  {
    var cp := Cell(src, r, c);
    var rest := EncodeRankFrom(src, r, c + 1, 0);
    var dst' := SetCell(dst, r, c, cp);
    assert forall column: Coord :: c + 1 <= column ==> Cell(dst', r, column) == EMPTY;
    EncodedRankParses(src, r, c + 1, 0, dst');
    EncodePieceStep(src, r, c, run);
    RunThenPiece(rest, dst, r, c, run, cp);
    RowCopiedWiden(ParseRankFrom(rest, dst', r, c + 1).value, src, dst, r, c, c - run);
  }

  /** Scanning a pending run and a piece letter moves to the next column with the piece written. */
  lemma RunThenPiece(rest: string, dst: Board, r: Coord, c: Coord, run: nat, cp: ColoredPiece)
    requires run <= c
    ensures ParseRankFrom(PendingRun(run) + [COLORED_PIECE_SYMBOL[cp]] + rest, dst, r, c - run)
      == ParseRankFrom(rest, SetCell(dst, r, c, cp), r, c + 1)
  {
    var piece := [COLORED_PIECE_SYMBOL[cp]];
    Regroup(PendingRun(run), piece, rest);
    PendingThenText(piece + rest, dst, r, c - run, run);
    PieceStep(rest, dst, r, c, cp);
  }

  /** Scanning a pending run moves past the empty squares it counts. */
  lemma PendingThenText(t: string, dst: Board, r: Coord, c: nat, run: nat)
    requires run <= 8 && c < 8
    ensures ParseRankFrom(PendingRun(run) + t, dst, r, c) == ParseRankFrom(t, dst, r, c + run)
  {
    if run > 0 {
      RunStep(t, dst, r, c, run);
    } else {
      assert PendingRun(run) + t == t;
    }
  }

  lemma Regroup(a: string, b: string, c: string)
    ensures a + b + c == a + (b + c)
  {
  }

  /** Scanning the encoded sub-fields for rows `r` down to 0 onto a board whose higher rows are done gives the board back. */
  lemma {:induction false} EncodedRanksParse(b: Board, r: int, dst: Board)
    requires -1 <= r <= 7
    requires forall row: Coord, column: Coord :: row <= r ==> Cell(dst, row, column) == EMPTY
    requires forall row: Coord, column: Coord :: row > r ==> Cell(dst, row, column) == Cell(b, row, column)
    ensures ParseRanks(RankFields(b), r, dst) == Success(b)
    decreases r + 1
  {
    if r < 0 {
      BoardsEqual(dst, b);
    } else {
      EncodedRankParses(b, r, 0, 0, dst);
      var next := ParseRankFrom(RankFields(b)[7 - r], dst, r, 0).value;
      EncodedRanksParse(b, r - 1, next);
    }
  }

  /** The board field splits back into its eight sub-fields, which scan back to the board. */
  lemma BoardFieldRoundTrip(b: Board)
    ensures Split(BoardField(b), '/') == RankFields(b)
    ensures ParseRanks(RankFields(b), 7, EMPTY_BOARD) == Success(b)
  {
    BoardFieldSplits(b);
    BoardFieldScans(b);
  }

  lemma BoardFieldSplits(b: Board)
    ensures Split(BoardField(b), '/') == RankFields(b)
  {
    var ranks := RankFields(b);
    RanksHaveNoSlash(ranks);
    SplitJoin(ranks, '/');
  }

  lemma BoardFieldScans(b: Board)
    ensures ParseRanks(RankFields(b), 7, EMPTY_BOARD) == Success(b)
  {
    EmptyBoardIsEmpty();
    EncodedRanksParse(b, 7, EMPTY_BOARD);
  }

  lemma EmptyBoardIsEmpty()
    ensures WellFormed(EMPTY_BOARD)
    ensures forall row: Coord, column: Coord :: Cell(EMPTY_BOARD, row, column) == EMPTY
  {
    assert IsEmptyBoard(Clear().board);
  }

  lemma RanksHaveNoSlash(ranks: seq<string>)
    requires forall i :: 0 <= i < |ranks| ==> IsCanonicalRank(ranks[i])
    ensures forall i :: 0 <= i < |ranks| ==> '/' !in ranks[i]
  {
    RankCharsAreWordChars();
    forall i | 0 <= i < |ranks|
      ensures '/' !in ranks[i]
    {
      assert AllRankChars(ranks[i]);
    }
  }

  /** The board field is a non-empty word. */
  lemma BoardFieldIsWord(b: Board)
    ensures |BoardField(b)| > 0 && NoWhitespace(BoardField(b))
  {
    var ranks := RankFields(b);
    RankCharsAreWordChars();
    forall i | 0 <= i < |ranks|
      ensures |ranks[i]| > 0 && NoWhitespace(ranks[i])
    {
      assert AllRankChars(ranks[i]);
    }
    JoinIsWord(ranks, '/');
  }

  lemma SixWords(a: string, b: string, c: string, d: string, e: string, f: string)
    requires |a| > 0 && NoWhitespace(a) && |b| > 0 && NoWhitespace(b) && |c| > 0 && NoWhitespace(c)
    requires |d| > 0 && NoWhitespace(d) && |e| > 0 && NoWhitespace(e) && |f| > 0 && NoWhitespace(f)
    ensures var fields := [a, b, c, d, e, f];
      forall i :: 0 <= i < |fields| ==> |fields[i]| > 0 && NoWhitespace(fields[i])
  {
  }

  lemma TurnFieldIsWord(p: Position)
    ensures |GetTurn(p)| > 0 && NoWhitespace(GetTurn(p))
  {
  }

  lemma EnPassantFieldIsWord(p: Position)
    ensures |EnPassantField(p)| > 0 && NoWhitespace(EnPassantField(p))
  {
  }

  lemma CastleFieldIsWord(cr: CastleRights)
    ensures |Castling.ToString(cr)| > 0 && NoWhitespace(Castling.ToString(cr))
  {
    var rights := Castling.ToString(cr);
    if rights != "-" {
      MatchedLettersAreLate(rights, 0);
    }
  }

  lemma NumberIsWord(n: nat)
    ensures |NatToString(n)| > 0 && NoWhitespace(NatToString(n))
  {
  }

  /** The positions that survive a trip through FEN: castle rights cut to the FEN bits, caches reset. */
  function Normalized(p: Position): Position {
    p.(castleRights := FenBits(p.castleRights), legal := Unknown, kings := NO_KINGS)
  }

  /**
    Decoding what `_getFEN` wrote, in either mode, gives back the position (up to the castle
    bits FEN cannot express and the caches a decode resets) and the two counters.
   */
  lemma FenRoundTrip(p: Position, fiftyMoveClock: nat, fullMoveNumber: nat, strict: bool)
    ensures DecodeFen(GetFen(p, fiftyMoveClock, fullMoveNumber), strict)
      == Success(Decoded(Normalized(p), Counters(fiftyMoveClock, fullMoveNumber)))
  {
    var fields := FenFields(p, fiftyMoveClock, fullMoveNumber);
    var expected := Decoded(Normalized(p), Counters(fiftyMoveClock, fullMoveNumber));
    MetaDecodes(fields, p, fiftyMoveClock, fullMoveNumber, strict);
    BoardFieldRoundTrip(p.board);
    DecodeStages(GetFen(p, fiftyMoveClock, fullMoveNumber), fields, RankFields(p.board), p.board, strict, expected);
  }

  /** A decode whose field split, sub-field split and board scan are known succeeds when its turn-to-counters stage does. */
  lemma DecodeStages(fen: string, fields: seq<string>, ranks: seq<string>, board: Board, strict: bool, d: Decoded)
    requires SplitWs(Trim(fen)) == fields && |fields| == 6
    requires Split(fields[0], '/') == ranks && |ranks| == 8
    requires ParseRanks(ranks, 7, EMPTY_BOARD) == Success(board)
    requires DecodeMeta(fields, board, strict) == Success(d)
    ensures DecodeFen(fen, strict) == Success(d)
  {
  }

  /** The turn and castle fields `_getFEN` writes decode to the position's turn and FEN castle bits. */
  lemma MetaDecodes(fields: seq<string>, p: Position, fiftyMoveClock: nat, fullMoveNumber: nat, strict: bool)
    requires |fields| == 6 && fields[1] == GetTurn(p) && fields[2] == Castling.ToString(p.castleRights) && fields[3] == EnPassantField(p)
    requires fields[4] == NatToString(fiftyMoveClock) && fields[5] == NatToString(fullMoveNumber)
    ensures DecodeMeta(fields, p.board, strict) == Success(Decoded(Normalized(p), Counters(fiftyMoveClock, fullMoveNumber)))
  {
    TurnDecodes(fields[1], p);
    FromToString(p.castleRights, strict);
    TailDecodes(fields, p, fiftyMoveClock, fullMoveNumber, strict);
  }

  lemma TurnDecodes(t: string, p: Position)
    requires t == GetTurn(p)
    ensures IndexOf(COLOR_SYMBOL, t) == p.turn
  {
    SymbolLookups();
  }

  /** The en-passant and counter fields `_getFEN` writes decode to the position's file and the counters. */
  lemma TailDecodes(fields: seq<string>, p: Position, fiftyMoveClock: nat, fullMoveNumber: nat, strict: bool)
    requires |fields| == 6 && fields[3] == EnPassantField(p)
    requires fields[4] == NatToString(fiftyMoveClock) && fields[5] == NatToString(fullMoveNumber)
    ensures DecodeTail(fields, p.board, p.turn, FenBits(p.castleRights), strict)
      == Success(Decoded(Normalized(p), Counters(fiftyMoveClock, fullMoveNumber)))
  {
    EnPassantDecodes(p, strict);
    ParseNatToString(fiftyMoveClock);
    ParseNatToString(fullMoveNumber);
  }

  lemma EnPassantDecodes(p: Position, strict: bool)
    ensures ParseEnPassant(EnPassantField(p), p.turn, strict) == Success(p.enPassant)
  {
    SymbolLookups();
  }
}
