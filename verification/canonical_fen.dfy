/**
  The texts `_getFEN` writes, described without the encoder: six single-space-separated
  fields in canonical form. Decoding such a text and encoding the result gives the text
  back, so together with the round trip from positions the encoder's image is exactly this
  set of texts.
 */
module CanonicalFen {
  import opened Results
  import opened Strings
  import opened Board
  import opened Castling
  import opened Positions
  import opened FenCodec
  import opened FenGrammar

  /**
    Six fields in the form `_getFEN` writes them: eight canonical rank texts joined by `/`,
    `w` or `b`, `-` or castle letters in the order `KQkq`, `-` or the square behind a pawn
    that has just advanced two rows, and two counters without leading zeros.
   */
  predicate IsCanonicalFields(fields: seq<string>) {
    && |fields| == 6
    && (var ranks := Split(fields[0], '/'); |ranks| == 8 && forall i :: 0 <= i < 8 ==> IsCanonicalRank(ranks[i]))
    && (fields[1] == "w" || fields[1] == "b")
    && (fields[2] == "-" || (fields[2] != "" && IsStrictCastleText(fields[2])))
    && IsEnPassantText(fields[3], fields[1], true)
    && IsCanonicalNumber(fields[4]) && IsCanonicalNumber(fields[5])
  }

  /**
    A canonical text decodes, in either mode, and `_getFEN` applied to the decoded position
    and counters writes the same text again.
   */
  lemma CanonicalRoundTrip(fields: seq<string>, strict: bool)
    requires IsCanonicalFields(fields)
    ensures var d := DecodeFen(Join(fields, ' '), strict);
      d.Success? && GetFen(d.value.position, d.value.counters.fiftyMoveClock, d.value.counters.fullMoveNumber) == Join(fields, ' ')
  {
    var fen := Join(fields, ' ');
    var ranks := Split(fields[0], '/');
    CanonicalFieldsAreWords(fields);
    SplitWsJoinTrimmed(fields);
    var board := CanonicalBoard(ranks);
    var d := CanonicalMetaDecodes(fields, board, strict);
    assert DecodeFen(fen, strict) == Success(d);
    CanonicalMetaEncodes(fields, board, d);
    FenFieldsAre(d.position, d.counters.fiftyMoveClock, d.counters.fullMoveNumber, fields);
    assert GetFen(d.position, d.counters.fiftyMoveClock, d.counters.fullMoveNumber)
      == Join(FenFields(d.position, d.counters.fiftyMoveClock, d.counters.fullMoveNumber), ' ');
  }

  /** Conversely, the six fields `_getFEN` writes are always canonical. */
  lemma EncoderIsCanonical(p: Position, fiftyMoveClock: nat, fullMoveNumber: nat)
    ensures IsCanonicalFields(FenFields(p, fiftyMoveClock, fullMoveNumber))
  {
    BoardFieldRoundTrip(p.board);
    FenRoundTrip(p, fiftyMoveClock, fullMoveNumber, true);
    DecodeFenAcceptance(GetFen(p, fiftyMoveClock, fullMoveNumber), true);
  }

  // ---------------------------------------------------------------------------
  // The board field
  // ---------------------------------------------------------------------------

  /** Columns `c` to `c + k - 1` of row `r` are empty. */
  predicate EmptyBetween(b: Board, r: Coord, c: nat, k: nat) {
    forall column: Coord :: c <= column < c + k ==> Cell(b, r, column) == EMPTY
  }

  /** Empty cells from column `c` on only lengthen the pending run. */
  lemma {:induction false} EncodeEmptyRun(b: Board, r: Coord, c: nat, k: nat, run: nat)
    requires run <= c && c + k <= 8 && EmptyBetween(b, r, c, k)
    ensures EncodeRankFrom(b, r, c, run) == EncodeRankFrom(b, r, c + k, run + k)
    decreases k
  {
    if k > 0 {
      var last: Coord := c + k - 1;
      assert EmptyBetween(b, r, c, k - 1) && Cell(b, r, last) == EMPTY;
      var pending := run + k - 1;
      EncodeEmptyRun(b, r, c, k - 1, run);
      EncodeEmptyStep(b, r, last, pending);
      assert last + 1 == c + k && pending + 1 == run + k;
    }
  }

  /** A letter a rank text may hold that is not a run length is the letter of a coloured piece. */
  lemma PieceOfLetter(ch: char) returns (cp: ColoredPiece)
    requires IsRankChar(ch) && !('1' <= ch <= '8')
    ensures IndexOf(COLORED_PIECE_SYMBOL, [ch]) == cp && COLORED_PIECE_SYMBOL[cp] == ch
  {
    PieceLetterIsRankChar(ch);
    var k :| 0 <= k < |COLORED_PIECE_SYMBOL| && COLORED_PIECE_SYMBOL[k] == ch;
    PieceLetters();
    IndexOfDistinct(COLORED_PIECE_SYMBOL, k);
    cp := k;
  }

  /**
    Scanning a canonical rank text from column `c`, on a row that is empty from there on,
    succeeds, and the encoder, started at column `c` with `run` squares pending, writes the
    pending run followed by the same text. A pending run is never followed by a run length.
   */
  lemma {:induction false} CanonicalRankParses(s: string, dst: Board, r: Coord, c: nat, run: nat)
    requires run <= c && c + RankWidth(s) == 8 && AllRankChars(s) && NoAdjacentDigits(s)
    requires run > 0 && |s| > 0 ==> !IsDigit(s[0])
    requires forall column: Coord :: c <= column ==> Cell(dst, r, column) == EMPTY
    ensures ParseRankFrom(s, dst, r, c).Success?
    ensures EncodeRankFrom(ParseRankFrom(s, dst, r, c).value, r, c, run) == PendingRun(run) + s
    decreases |s|
  {
    if |s| == 0 {
      assert PendingRun(run) + s == PendingRun(run);
    } else {
      var ch := s[0];
      AllRankCharsCons(s);
      assert NoAdjacentDigits(s[1..]) && (|s| > 1 ==> !(IsDigit(s[0]) && IsDigit(s[1])));
      if '1' <= ch <= '8' {
        var d := DigitValue(ch);
        CanonicalRankParses(s[1..], dst, r, c + d, d);
        CanonicalRunStep(s, dst, r, c, ParseRankFrom(s[1..], dst, r, c + d).value);
        assert run == 0 && PendingRun(run) + s == s;
      } else {
        var cp := PieceOfLetter(ch);
        CanonicalRankParses(s[1..], SetCell(dst, r, c, cp), r, c + 1, 0);
        assert PendingRun(0) + s[1..] == s[1..];
        CanonicalPieceStep(s, dst, r, c, run, cp, ParseRankFrom(s[1..], SetCell(dst, r, c, cp), r, c + 1).value);
      }
    }
  }

  /** A leading run length: its squares stay empty, and the encoder writes them as that digit. */
  lemma CanonicalRunStep(s: string, dst: Board, r: Coord, c: nat, next: Board)
    requires |s| > 0 && '1' <= s[0] <= '8' && c + DigitValue(s[0]) <= 8 && c < 8
    requires forall column: Coord :: c <= column ==> Cell(dst, r, column) == EMPTY
    requires ParseRankFrom(s[1..], dst, r, c + DigitValue(s[0])) == Success(next)
    requires EncodeRankFrom(next, r, c + DigitValue(s[0]), DigitValue(s[0])) == PendingRun(DigitValue(s[0])) + s[1..]
    ensures ParseRankFrom(s, dst, r, c) == Success(next)
    ensures EncodeRankFrom(next, r, c, 0) == s
  {
    var d := DigitValue(s[0]);
    assert DigitChar(d) == s[0];
    assert s == [DigitChar(d)] + s[1..];
    RunStep(s[1..], dst, r, c, d);
    assert forall column: Coord :: c <= column < c + d ==> Cell(next, r, column) == Cell(dst, r, column);
    CanonicalRunEncodes(s, next, r, c);
  }

  /** The encoder writes a run of empty squares from column `c` as the digit for its length. */
  lemma CanonicalRunEncodes(s: string, b: Board, r: Coord, c: nat)
    requires |s| > 0 && '1' <= s[0] <= '8' && c + DigitValue(s[0]) <= 8
    requires forall column: Coord :: c <= column < c + DigitValue(s[0]) ==> Cell(b, r, column) == EMPTY
    requires EncodeRankFrom(b, r, c + DigitValue(s[0]), DigitValue(s[0])) == PendingRun(DigitValue(s[0])) + s[1..]
    ensures EncodeRankFrom(b, r, c, 0) == s
  {
    var d := DigitValue(s[0]);
    assert EmptyBetween(b, r, c, d);
    EncodeEmptyRun(b, r, c, d, 0);
    assert DigitChar(d) == s[0];
    assert PendingRun(d) + s[1..] == s;
  }

  /** A leading piece letter: the scan writes that piece, and the encoder writes its letter after the pending run. */
  lemma CanonicalPieceStep(s: string, dst: Board, r: Coord, c: nat, run: nat, cp: ColoredPiece, next: Board)
    requires |s| > 0 && c < 8 && run <= c && COLORED_PIECE_SYMBOL[cp] == s[0]
    requires ParseRankFrom(s[1..], SetCell(dst, r, c, cp), r, c + 1) == Success(next)
    requires EncodeRankFrom(next, r, c + 1, 0) == s[1..]
    ensures ParseRankFrom(s, dst, r, c) == Success(next)
    ensures EncodeRankFrom(next, r, c, run) == PendingRun(run) + s
  {
    assert s == [COLORED_PIECE_SYMBOL[cp]] + s[1..];
    PieceStep(s[1..], dst, r, c, cp);
    assert Cell(next, r, c) == Cell(SetCell(dst, r, c, cp), r, c) == cp;
    CanonicalPieceEncodes(s, next, r, c, run);
  }

  /** The encoder writes a piece at column `c` as its letter, after the pending run. */
  lemma CanonicalPieceEncodes(s: string, b: Board, r: Coord, c: nat, run: nat)
    requires |s| > 0 && c < 8 && run <= c && Cell(b, r, c) != EMPTY && COLORED_PIECE_SYMBOL[Cell(b, r, c)] == s[0]
    requires EncodeRankFrom(b, r, c + 1, 0) == s[1..]
    ensures EncodeRankFrom(b, r, c, run) == PendingRun(run) + s
  {
    EncodePieceStep(b, r, c, run);
    assert PendingRun(run) + [s[0]] + s[1..] == PendingRun(run) + s;
  }

  /** Two boards with the same row `r` encode it the same way. */
  lemma SameRowSameRank(b: Board, b': Board, r: Coord)
    requires forall column: Coord :: Cell(b, r, column) == Cell(b', r, column)
    ensures EncodeRank(b, r) == EncodeRank(b', r)
  {
    assert RowFrom(b, r, 0) == RowFrom(b', r, 0);
  }

  /**
    Scanning canonical sub-fields `7 - r` to 7 onto a board whose rows up to `r` are empty
    succeeds, writes rows `r` down to 0 so that each encodes to its sub-field, and leaves the
    other rows alone.
   */
  lemma {:induction false} CanonicalRanksParse(ranks: seq<string>, r: int, dst: Board)
    requires |ranks| == 8 && -1 <= r <= 7
    requires forall i :: 0 <= i < 8 ==> IsCanonicalRank(ranks[i])
    requires forall row: Coord, column: Coord :: row <= r ==> Cell(dst, row, column) == EMPTY
    ensures ParseRanks(ranks, r, dst).Success?
    ensures forall row: Coord :: row <= r ==> EncodeRank(ParseRanks(ranks, r, dst).value, row) == ranks[7 - row]
    ensures forall row: Coord, column: Coord :: row > r ==> Cell(ParseRanks(ranks, r, dst).value, row, column) == Cell(dst, row, column)
    decreases r + 1
  {
    if r >= 0 {
      CanonicalRankParses(ranks[7 - r], dst, r, 0, 0);
      var next := ParseRankFrom(ranks[7 - r], dst, r, 0).value;
      CanonicalRanksParse(ranks, r - 1, next);
      var res := ParseRanks(ranks, r, dst).value;
      assert res == ParseRanks(ranks, r - 1, next).value;
      forall row: Coord | row <= r
        ensures EncodeRank(res, row) == ranks[7 - row]
      {
        if row == r {
          SameRowSameRank(res, next, r);
        }
      }
    }
  }

  /** Eight canonical sub-fields scan onto the empty board to a board that encodes to them. */
  lemma CanonicalBoard(ranks: seq<string>) returns (board: Board)
    requires |ranks| == 8 && forall i :: 0 <= i < 8 ==> IsCanonicalRank(ranks[i])
    ensures ParseRanks(ranks, 7, EMPTY_BOARD) == Success(board)
    ensures RankFields(board) == ranks
  {
    EmptyBoardIsEmpty();
    CanonicalRanksParse(ranks, 7, EMPTY_BOARD);
    board := ParseRanks(ranks, 7, EMPTY_BOARD).value;
    assert forall i :: 0 <= i < 8 ==> RankFields(board)[i] == EncodeRank(board, 7 - i);
  }

  // ---------------------------------------------------------------------------
  // The other fields
  // ---------------------------------------------------------------------------

  /** Every canonical field is a non-empty word. */
  lemma CanonicalFieldsAreWords(fields: seq<string>)
    requires IsCanonicalFields(fields)
    ensures forall i :: 0 <= i < 6 ==> |fields[i]| > 0 && NoWhitespace(fields[i])
  {
    var ranks := Split(fields[0], '/');
    RankCharsAreWordChars();
    forall i | 0 <= i < 8
      ensures |ranks[i]| > 0 && NoWhitespace(ranks[i])
    {
      assert AllRankChars(ranks[i]);
      assert RankWidth(ranks[i]) == 8;
    }
    JoinIsWord(ranks, '/');
    if fields[2] != "-" {
      MatchedLettersAreLate(fields[2], 0);
    }
  }

  /** The turn-to-counters stage decodes canonical fields, in either mode. */
  lemma CanonicalMetaDecodes(fields: seq<string>, board: Board, strict: bool) returns (d: Decoded)
    requires IsCanonicalFields(fields)
    ensures DecodeMeta(fields, board, strict) == Success(d)
    ensures d.position.board == board
    ensures d.position.turn == (if fields[1] == "w" then WHITE else BLACK)
    ensures Castling.FromString(fields[2], true) == Some(d.position.castleRights)
    ensures fields[3] == "-" <==> d.position.enPassant == -1
    ensures d.position.enPassant >= 0 ==> COLUMN_SYMBOL[d.position.enPassant] == fields[3][0]
    ensures d.counters == Counters(ParseDecimal(fields[4]), ParseDecimal(fields[5]))
  {
    ColorLookup(fields[1]);
    var rights := Castling.FromString(fields[2], true);
    StrictCastleIsLenient(fields[2]);
    d := DecodeMeta(fields, board, strict).value;
  }

  /** The castle field of canonical fields is what `_getFEN` writes for the rights it decodes to. */
  lemma CanonicalCastleEncodes(s: string)
    requires s == "-" || (s != "" && IsStrictCastleText(s))
    ensures Castling.FromString(s, true).Some? && Castling.ToString(Castling.FromString(s, true).value) == s
  {
    if s == "-" {
      var cr := Castling.FromString(s, true).value;
      SameFenBits(cr.white, 0);
      SameFenBits(cr.black, 0);
    } else {
      ToFromString(s);
    }
  }

  /** `_getFEN` writes canonical fields back from what they decode to. */
  lemma CanonicalMetaEncodes(fields: seq<string>, board: Board, d: Decoded)
    requires |fields| == 6 && (fields[1] == "w" || fields[1] == "b")
    requires fields[2] == "-" || (fields[2] != "" && IsStrictCastleText(fields[2]))
    requires IsEnPassantText(fields[3], fields[1], true)
    requires IsCanonicalNumber(fields[4]) && IsCanonicalNumber(fields[5])
    requires RankFields(board) == Split(fields[0], '/')
    requires d.position.board == board
    requires d.position.turn == (if fields[1] == "w" then WHITE else BLACK)
    requires Castling.FromString(fields[2], true) == Some(d.position.castleRights)
    requires fields[3] == "-" <==> d.position.enPassant == -1
    requires d.position.enPassant >= 0 ==> COLUMN_SYMBOL[d.position.enPassant] == fields[3][0]
    requires d.counters == Counters(ParseDecimal(fields[4]), ParseDecimal(fields[5]))
    ensures BoardField(d.position.board) == fields[0] && GetTurn(d.position) == fields[1]
    ensures Castling.ToString(d.position.castleRights) == fields[2] && EnPassantField(d.position) == fields[3]
    ensures NatToString(d.counters.fiftyMoveClock) == fields[4] && NatToString(d.counters.fullMoveNumber) == fields[5]
  {
    var p := d.position;
    CanonicalCastleEncodes(fields[2]);
    CanonicalBoardEncodes(fields[0], board);
    CanonicalTurnEncodes(fields[1], p);
    CanonicalEnPassantEncodes(fields[3], fields[1], p);
  }

  lemma CanonicalBoardEncodes(field: string, board: Board)
    requires RankFields(board) == Split(field, '/')
    ensures BoardField(board) == field
  {
  }

  lemma CanonicalTurnEncodes(t: string, p: Position)
    requires (t == "w" || t == "b") && p.turn == (if t == "w" then WHITE else BLACK)
    ensures GetTurn(p) == t
  {
  }

  lemma CanonicalEnPassantEncodes(s: string, t: string, p: Position)
    requires (t == "w" || t == "b") && p.turn == (if t == "w" then WHITE else BLACK)
    requires IsEnPassantText(s, t, true)
    requires s == "-" <==> p.enPassant == -1
    requires p.enPassant >= 0 ==> COLUMN_SYMBOL[p.enPassant] == s[0]
    ensures EnPassantField(p) == s
  {
  }

  /** The six fields `_getFEN` writes are given field by field. */
  lemma FenFieldsAre(p: Position, fiftyMoveClock: nat, fullMoveNumber: nat, fields: seq<string>)
    requires |fields| == 6
    requires BoardField(p.board) == fields[0] && GetTurn(p) == fields[1]
    requires Castling.ToString(p.castleRights) == fields[2] && EnPassantField(p) == fields[3]
    requires NatToString(fiftyMoveClock) == fields[4] && NatToString(fullMoveNumber) == fields[5]
    ensures FenFields(p, fiftyMoveClock, fullMoveNumber) == fields
  {
    SixFields(FenFields(p, fiftyMoveClock, fullMoveNumber), fields);
  }

  lemma SixFields(a: seq<string>, b: seq<string>)
    requires |a| == 6 && |b| == 6
    requires a[0] == b[0] && a[1] == b[1] && a[2] == b[2] && a[3] == b[3] && a[4] == b[4] && a[5] == b[5]
    ensures a == b
  {
  }
}
