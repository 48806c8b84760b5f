/**
  The FEN texts `_setFEN` accepts, written as a grammar of their own, and the proofs that
  the decoder accepts exactly these texts, in each mode, and reports the first field that
  breaks the grammar.
 */
module FenGrammar {
  import opened Results
  import opened Strings
  import opened Board
  import opened Castling
  import opened Positions
  import opened FenCodec

  // ---------------------------------------------------------------------------
  // The grammar
  // ---------------------------------------------------------------------------

  /** A board sub-field: run lengths and piece letters covering exactly eight squares. */
  predicate IsRankText(s: string) {
    AllRankChars(s) && RankWidth(s) == 8
  }

  /** Eight `/`-separated sub-fields, each a rank text. */
  predicate IsBoardText(field: string) {
    var ranks := Split(field, '/');
    |ranks| == 8 && forall i :: 0 <= i < 8 ==> IsRankText(ranks[i])
  }

  /** The turn tokens a lookup in `wb` finds: `w` and `wb` mean white, `b` black. */
  predicate IsTurnText(t: string) {
    t in {"", "w", "b", "wb"}
  }

  predicate IsCastleText(s: string, strict: bool) {
    s == "-" || if strict then IsStrictCastleText(s) else IsLenientCastleText(s)
  }

  /** `-`, or a square on row 3 or 6; when strict, on the row the side to move would capture onto. */
  predicate IsEnPassantText(s: string, turn: string, strict: bool) {
    s == "-" || (IsEnPassantSquare(s) && (!strict || s[1] == (if turn == "b" then '3' else '6')))
  }

  /** Six whitespace-separated fields, each in its own grammar. */
  predicate IsValidFen(fen: string, strict: bool) {
    var fields := SplitWs(Trim(fen));
    && |fields| == 6
    && IsBoardText(fields[0])
    && IsTurnText(fields[1])
    && IsCastleText(fields[2], strict)
    && IsEnPassantText(fields[3], fields[1], strict)
    && IsCounterText(fields[4], strict)
    && IsCounterText(fields[5], strict)
  }

  // ---------------------------------------------------------------------------
  // The board field
  // ---------------------------------------------------------------------------

  lemma AllRankCharsCons(s: string)
    requires |s| > 0
    ensures AllRankChars(s) <==> IsRankChar(s[0]) && AllRankChars(s[1..])
  {
    if IsRankChar(s[0]) && AllRankChars(s[1..]) {
      forall i | 0 <= i < |s|
        ensures IsRankChar(s[i])
      {
        if i > 0 {
          assert s[i] == s[1..][i - 1];
        }
      }
    }
  }

  /**
    A sub-field scanned from column `c` is accepted exactly when it holds only run lengths and
    piece letters and covers the `8 - c` remaining squares: the scan neither stops early nor
    runs past column h.
   */
  lemma {:induction false} RankAcceptance(s: string, b: Board, r: Coord, c: nat)
    requires c <= 8
    ensures ParseRankFrom(s, b, r, c).Success? <==> AllRankChars(s) && c + RankWidth(s) == 8
    decreases |s|
  {
    if |s| > 0 {
      var ch := s[0];
      AllRankCharsCons(s);
      if c == 8 {
        assert RankWidth(s) > 0;
      } else if '1' <= ch <= '8' {
        if c + DigitValue(ch) <= 8 {
          RankAcceptance(s[1..], b, r, c + DigitValue(ch));
        }
      } else {
        var cp := IndexOf(COLORED_PIECE_SYMBOL, [ch]);
        SubstringOfOne(COLORED_PIECE_SYMBOL, ch);
        PieceLetterIsRankChar(ch);
        if cp >= 0 {
          RankAcceptance(s[1..], SetCell(b, r, c, cp), r, c + 1);
        }
      }
    }
  }

  /** Sub-fields `7 - r` to 7 are all rank texts, checked one row at a time as the decoder does. */
  predicate RankTextsFrom(ranks: seq<string>, r: int)
    requires |ranks| == 8 && -1 <= r <= 7
    decreases r + 1
  {
    r < 0 || (IsRankText(ranks[7 - r]) && RankTextsFrom(ranks, r - 1))
  }

  /** The row-by-row check agrees with the check of every sub-field at once. */
  lemma {:induction false} RankTextsFromAll(ranks: seq<string>, r: int)
    requires |ranks| == 8 && -1 <= r <= 7
    ensures RankTextsFrom(ranks, r) <==> forall i :: 7 - r <= i < 8 ==> IsRankText(ranks[i])
    decreases r + 1
  {
    if r >= 0 {
      RankTextsFromAll(ranks, r - 1);
    }
  }

  /** Scanning sub-fields `7 - r` to 7 succeeds exactly when each of them is a rank text. */
  lemma {:induction false} RanksAcceptance(ranks: seq<string>, r: int, b: Board)
    requires |ranks| == 8 && -1 <= r <= 7
    ensures ParseRanks(ranks, r, b).Success? <==> RankTextsFrom(ranks, r)
    decreases r + 1
  {
    if r >= 0 {
      RankAcceptance(ranks[7 - r], b, r, 0);
      var first := ParseRankFrom(ranks[7 - r], b, r, 0);
      if first.Success? {
        RanksAcceptance(ranks, r - 1, first.value);
      }
    }
  }

  // ---------------------------------------------------------------------------
  // Which board failure is reported
  // ---------------------------------------------------------------------------

  /**
    Scanning a sub-field from column `c`, the scan reaches character `k` and stops on it: the
    characters before it are run lengths and piece letters covering fewer than `8 - c`
    squares, and it is neither.
   */
  predicate StopsAt(s: string, c: nat, k: int) {
    0 <= k < |s| && AllRankChars(s[..k]) && c + RankWidth(s[..k]) < 8 && !IsRankChar(s[k])
  }

  /**
    The failure a rejected sub-field reports: the character the scan stops on, when there is
    one; otherwise (the text runs past column h, or ends before it) an unexpected end.
   */
  lemma {:induction false} RankFailure(s: string, b: Board, r: Coord, c: nat)
    ensures forall k :: StopsAt(s, c, k) ==> ParseRankFrom(s, b, r, c) == Failure(UnexpectedCharacterInBoardField(s[k]))
    ensures (forall k :: !StopsAt(s, c, k)) && !(AllRankChars(s) && c + RankWidth(s) == 8)
      ==> ParseRankFrom(s, b, r, c) == Failure(UnexpectedEndOfSubfieldInBoardField(7 - r))
    decreases |s|
  {
    if |s| > 0 && c < 8 {
      AllRankCharsCons(s);
      if IsRankChar(s[0]) {
        var width, b' := ScanStep(s, b, r, c);
        var t, c' := s[1..], c + width;
        RankFailure(t, b', r, c');
        StopsAfterHead(s, c, t, c');
      } else {
        SubstringOfOne(COLORED_PIECE_SYMBOL, s[0]);
        if !('1' <= s[0] <= '8') {
          PieceLetterIsRankChar(s[0]);
        }
        assert StopsAt(s, c, 0) by {
          assert s[..0] == "";
        }
      }
    }
  }

  /** One step of the scan over a leading run length or piece letter. */
  lemma ScanStep(s: string, b: Board, r: Coord, c: nat) returns (width: nat, b': Board)
    requires |s| > 0 && c < 8 && IsRankChar(s[0])
    ensures width == if '1' <= s[0] <= '8' then DigitValue(s[0]) else 1
    ensures ParseRankFrom(s, b, r, c) == ParseRankFrom(s[1..], b', r, c + width)
  {
    var t := s[1..];
    if '1' <= s[0] <= '8' {
      width, b' := DigitValue(s[0]), b;
      assert s == [DigitChar(width)] + t;
      RunStep(t, b, r, c, width);
    } else {
      var cp := LetterPiece(s[0]);
      width, b' := 1, SetCell(b, r, c, cp);
      assert s == [COLORED_PIECE_SYMBOL[cp]] + t;
      PieceStep(t, b, r, c, cp);
    }
  }

  /** The scan never stops on a leading rank character, and after it stops where the rest's scan stops. */
  lemma StopsAfterHead(s: string, c: nat, t: string, c': nat)
    requires |s| > 0 && IsRankChar(s[0]) && t == s[1..]
    requires c' == c + if '1' <= s[0] <= '8' then DigitValue(s[0]) else 1
    ensures !StopsAt(s, c, 0)
    ensures forall j :: 0 <= j < |t| ==> (StopsAt(t, c', j) <==> StopsAt(s, c, j + 1))
  {
    forall j | 0 <= j < |t|
      ensures StopsAt(t, c', j) <==> StopsAt(s, c, j + 1)
    {
      StopsAtTail(s, c, j + 1, c' - c);
    }
  }

  /** Past a leading run length or piece letter of width `width`, the scan goes on from column `c + width`. */
  lemma StopsAtTail(s: string, c: nat, k: int, width: nat)
    requires 0 < k < |s| && IsRankChar(s[0])
    requires width == if '1' <= s[0] <= '8' then DigitValue(s[0]) else 1
    ensures StopsAt(s, c, k) <==> StopsAt(s[1..], c + width, k - 1)
  {
    var p := s[..k];
    assert p[0] == s[0] && p[1..] == s[1..][..k - 1];
    AllRankCharsCons(p);
    assert s[k] == s[1..][k - 1];
  }

  /** Sub-field `i` is the first of sub-fields `7 - r` to 7 that is not a rank text. */
  predicate FirstBadRank(ranks: seq<string>, r: int, i: int)
    requires |ranks| == 8
  {
    && 0 <= i && 7 - r <= i < 8 && !IsRankText(ranks[i])
    && forall j :: 0 <= j && 7 - r <= j < i ==> IsRankText(ranks[j])
  }

  /**
    Scanning sub-fields `7 - r` to 7 (rank 8 first) fails on the first one that is not a rank
    text, with the character its scan stops on or, lacking one, an unexpected end of that
    sub-field.
   */
  lemma {:induction false} RanksFailure(ranks: seq<string>, r: int, b: Board, i: int)
    requires |ranks| == 8 && -1 <= r <= 7 && FirstBadRank(ranks, r, i)
    ensures ParseRanks(ranks, r, b).Failure?
    ensures forall k :: StopsAt(ranks[i], 0, k) ==> ParseRanks(ranks, r, b).error == UnexpectedCharacterInBoardField(ranks[i][k])
    ensures (forall k :: !StopsAt(ranks[i], 0, k)) ==> ParseRanks(ranks, r, b).error == UnexpectedEndOfSubfieldInBoardField(i)
    decreases r + 1
  {
    RankAcceptance(ranks[7 - r], b, r, 0);
    if i == 7 - r {
      RankFailure(ranks[i], b, r, 0);
    } else {
      var next := ParseRankFrom(ranks[7 - r], b, r, 0).value;
      RanksFailure(ranks, r - 1, next, i);
    }
  }

  /**
    With six fields and eight sub-fields, when sub-field `i` is the first that is not a rank
    text, `_setFEN` reports the character its scan stops on, or else an unexpected end of
    sub-field `i`.
   */
  lemma BoardFailureIs(fen: string, strict: bool, i: int)
    requires |SplitWs(Trim(fen))| == 6 && |Split(SplitWs(Trim(fen))[0], '/')| == 8
    requires FirstBadRank(Split(SplitWs(Trim(fen))[0], '/'), 7, i)
    ensures var ranks := Split(SplitWs(Trim(fen))[0], '/'); var r := DecodeFen(fen, strict);
      && r.Failure?
      && (forall k :: StopsAt(ranks[i], 0, k) ==> r.error.failure == UnexpectedCharacterInBoardField(ranks[i][k]))
      && ((forall k :: !StopsAt(ranks[i], 0, k)) ==> r.error.failure == UnexpectedEndOfSubfieldInBoardField(i))
  {
    var ranks := Split(SplitWs(Trim(fen))[0], '/');
    RanksFailure(ranks, 7, EMPTY_BOARD, i);
  }

  // ---------------------------------------------------------------------------
  // The other fields
  // ---------------------------------------------------------------------------

  /** The en-passant and counter stage succeeds exactly when those three fields are in their grammars. */
  lemma TailAcceptance(fields: seq<string>, board: Board, turn: Color, rights: CastleRights, strict: bool)
    requires |fields| == 6 && IsTurnText(fields[1]) && (turn == BLACK <==> fields[1] == "b")
    ensures DecodeTail(fields, board, turn, rights, strict).Success?
      <==> IsEnPassantText(fields[3], fields[1], strict) && IsCounterText(fields[4], strict) && IsCounterText(fields[5], strict)
  {
  }

  /** The turn-to-counters stage succeeds exactly when those five fields are in their grammars. */
  lemma MetaAcceptance(fields: seq<string>, board: Board, strict: bool)
    requires |fields| == 6
    ensures DecodeMeta(fields, board, strict).Success?
      <==> && IsTurnText(fields[1]) && IsCastleText(fields[2], strict)
           && IsEnPassantText(fields[3], fields[1], strict)
           && IsCounterText(fields[4], strict) && IsCounterText(fields[5], strict)
  {
    ColorLookup(fields[1]);
    var turn := IndexOf(COLOR_SYMBOL, fields[1]);
    if turn >= 0 {
      var rights := Castling.FromString(fields[2], strict);
      if rights.Some? {
        TailAcceptance(fields, board, turn, rights.value, strict);
      }
    }
  }

  /** `_setFEN` accepts exactly the texts of the grammar, in either mode. */
  lemma DecodeFenAcceptance(fen: string, strict: bool)
    ensures DecodeFen(fen, strict).Success? <==> IsValidFen(fen, strict)
  {
    var fields := SplitWs(Trim(fen));
    if |fields| == 6 {
      var ranks := Split(fields[0], '/');
      if |ranks| == 8 {
        RanksAcceptance(ranks, 7, EMPTY_BOARD);
        RankTextsFromAll(ranks, 7);
        var board := ParseRanks(ranks, 7, EMPTY_BOARD);
        if board.Success? {
          MetaAcceptance(fields, board.value, strict);
        }
      }
    }
  }

  // ---------------------------------------------------------------------------
  // What an accepted text decodes to
  // ---------------------------------------------------------------------------

  /** The coloured piece a piece letter stands for. */
  function LetterPiece(ch: char): (cp: ColoredPiece)
    requires IsRankChar(ch) && !('1' <= ch <= '8')
    ensures COLORED_PIECE_SYMBOL[cp] == ch
  {
    PieceLetterIsRankChar(ch);
    SubstringOfOne(COLORED_PIECE_SYMBOL, ch);
    var k := IndexOf(COLORED_PIECE_SYMBOL, [ch]);
    assert COLORED_PIECE_SYMBOL[k..k + 1] == [ch];
    k
  }

  /**
    The row a rank text describes, column a first, read off the text alone: a run length
    stands for that many empty squares and a piece letter for its coloured piece. `44`,
    `11111111` and `8` all describe the empty row.
   */
  function ExpandRank(s: string): (cells: seq<int>)
    requires AllRankChars(s)
    ensures |cells| == RankWidth(s)
    decreases |s|
  {
    if |s| == 0 then []
    else
      AllRankCharsCons(s);
      (if '1' <= s[0] <= '8' then seq(DigitValue(s[0]), _ => EMPTY) else [LetterPiece(s[0])]) + ExpandRank(s[1..])
  }

  /** Row `r` of `b` is empty from column `c` on. */
  predicate RowEmptyFrom(b: Board, r: Coord, c: nat) {
    forall column: Coord :: c <= column ==> Cell(b, r, column) == EMPTY
  }

  /** Row `r` of `b`, from column `c` on, holds the expansion of `s`. */
  predicate RowExpandsFrom(b: Board, r: Coord, c: nat, s: string)
    requires AllRankChars(s) && c + RankWidth(s) == 8
  {
    forall column: Coord :: c <= column ==> Cell(b, r, column) == ExpandRank(s)[column - c]
  }

  /** The board sub-field describing row `row`: rank 8 (row 7) comes first. */
  function SubfieldOf(ranks: seq<string>, row: Coord): string
    requires |ranks| == 8
  {
    ranks[7 - row]
  }

  /** Row `r` of `b` is exactly what the rank text `s` describes. */
  predicate RowExpands(b: Board, r: Coord, s: string) {
    IsRankText(s) && RowExpandsFrom(b, r, 0, s)
  }

  /**
    Scanning a rank text from column `c`, on a row that is empty from there on, succeeds and
    fills the row from column `c` with the text's expansion.
   */
  lemma {:induction false} RankExpansion(s: string, b: Board, r: Coord, c: nat)
    requires AllRankChars(s) && c + RankWidth(s) == 8
    requires RowEmptyFrom(b, r, c)
    ensures ParseRankFrom(s, b, r, c).Success?
    ensures RowExpandsFrom(ParseRankFrom(s, b, r, c).value, r, c, s)
    decreases |s|, 1
  {
    if |s| > 0 {
      AllRankCharsCons(s);
      if '1' <= s[0] <= '8' {
        RunExpansion(s, b, r, c);
      } else {
        PieceExpansion(s, b, r, c);
      }
    }
  }

  /** The run-length step of RankExpansion. */
  lemma {:induction false} RunExpansion(s: string, b: Board, r: Coord, c: nat)
    requires |s| > 0 && '1' <= s[0] <= '8'
    requires AllRankChars(s) && c + RankWidth(s) == 8
    requires RowEmptyFrom(b, r, c)
    ensures ParseRankFrom(s, b, r, c).Success?
    ensures RowExpandsFrom(ParseRankFrom(s, b, r, c).value, r, c, s)
    decreases |s|, 0
  {
    AllRankCharsCons(s);
    var t := s[1..];
    var d := DigitValue(s[0]);
    assert DigitChar(d) == s[0];
    assert s == [DigitChar(d)] + t;
    RunStep(t, b, r, c, d);
    RankExpansion(t, b, r, c + d);
    var res := ParseRankFrom(t, b, r, c + d).value;
    var run: seq<int> := seq(d, _ => EMPTY);
    assert ExpandRank(s) == run + ExpandRank(t);
    forall column: Coord | c <= column
      ensures Cell(res, r, column) == ExpandRank(s)[column - c]
    {
      if column < c + d {
        assert Cell(res, r, column) == Cell(b, r, column);
      } else {
        assert ExpandRank(s)[column - c] == ExpandRank(t)[column - (c + d)];
      }
    }
  }

  /** The piece-letter step of RankExpansion. */
  lemma {:induction false} PieceExpansion(s: string, b: Board, r: Coord, c: nat)
    requires |s| > 0 && !('1' <= s[0] <= '8')
    requires AllRankChars(s) && c + RankWidth(s) == 8
    requires RowEmptyFrom(b, r, c)
    ensures ParseRankFrom(s, b, r, c).Success?
    ensures RowExpandsFrom(ParseRankFrom(s, b, r, c).value, r, c, s)
    decreases |s|, 0
  {
    AllRankCharsCons(s);
    var t := s[1..];
    var cp := LetterPiece(s[0]);
    assert s == [COLORED_PIECE_SYMBOL[cp]] + t;
    PieceStep(t, b, r, c, cp);
    var b' := SetCell(b, r, c, cp);
    assert RowEmptyFrom(b', r, c + 1);
    RankExpansion(t, b', r, c + 1);
    var res := ParseRankFrom(t, b', r, c + 1).value;
    assert ExpandRank(s) == [cp] + ExpandRank(t);
    forall column: Coord | c <= column
      ensures Cell(res, r, column) == ExpandRank(s)[column - c]
    {
      if column == c {
        assert Cell(res, r, c) == Cell(b', r, c);
      } else {
        assert ExpandRank(s)[column - c] == ExpandRank(t)[column - (c + 1)];
      }
    }
  }

  /**
    Scanning rank texts `7 - r` to 7 onto a board whose rows up to `r` are empty succeeds,
    sets each of rows `r` down to 0 to what its sub-field describes, and leaves the other
    rows alone.
   */
  lemma {:induction false} RanksExpansion(ranks: seq<string>, r: int, b: Board)
    requires |ranks| == 8 && -1 <= r <= 7
    requires forall i :: 0 <= i < 8 ==> IsRankText(ranks[i])
    requires forall row: Coord :: row <= r ==> RowEmptyFrom(b, row, 0)
    ensures ParseRanks(ranks, r, b).Success?
    ensures forall row: Coord :: row <= r ==> RowExpands(ParseRanks(ranks, r, b).value, row, SubfieldOf(ranks, row))
    ensures forall row: Coord, column: Coord :: row > r ==> Cell(ParseRanks(ranks, r, b).value, row, column) == Cell(b, row, column)
    decreases r + 1
  {
    if r >= 0 {
      var rank := ranks[7 - r];
      assert IsRankText(rank);
      RankExpansion(rank, b, r, 0);
      var next := ParseRankFrom(rank, b, r, 0).value;
      assert RowExpands(next, r, rank);
      forall row: Coord | row < r
        ensures RowEmptyFrom(next, row, 0)
      {
        assert RowEmptyFrom(b, row, 0);
        forall column: Coord
          ensures Cell(next, row, column) == EMPTY
        {
          assert Cell(next, row, column) == Cell(b, row, column);
        }
      }
      RanksExpansion(ranks, r - 1, next);
      var res := ParseRanks(ranks, r, b).value;
      assert res == ParseRanks(ranks, r - 1, next).value;
      forall row: Coord | row <= r
        ensures RowExpands(res, row, SubfieldOf(ranks, row))
      {
        if row == r {
          assert forall column: Coord :: Cell(res, r, column) == Cell(next, r, column);
        }
      }
    }
  }

  /**
    What `_setFEN` builds from a text it accepts, read off the text: each square holds what
    its sub-field's expansion puts there, black is to move exactly for turn `b` (so `w`, `wb`
    and the empty token mean white), the castle rights are those the field decodes to, and
    the en-passant file and counters are those of their fields (`007` reads as 7).
   */
  lemma DecodedContents(fen: string, strict: bool)
    requires DecodeFen(fen, strict).Success?
    ensures var fields := SplitWs(Trim(fen)); var d := DecodeFen(fen, strict).value;
      && |fields| == 6 && IsBoardText(fields[0])
      && (forall row: Coord :: RowExpands(d.position.board, row, SubfieldOf(Split(fields[0], '/'), row)))
      && (d.position.turn == BLACK <==> fields[1] == "b")
      && Castling.FromString(fields[2], strict) == Some(d.position.castleRights)
      && TailDecoded(fields, d)
  {
    DecodeFenAcceptance(fen, strict);
    var fields := SplitWs(Trim(fen));
    var ranks := Split(fields[0], '/');
    EmptyBoardIsEmpty();
    RanksExpansion(ranks, 7, EMPTY_BOARD);
  }

  // ---------------------------------------------------------------------------
  // Which failure is reported
  // ---------------------------------------------------------------------------

  predicate IsBoardFailure(f: FenFailure) {
    f.UnexpectedCharacterInBoardField? || f.UnexpectedEndOfSubfieldInBoardField?
  }

  /** Fields 1 to 5 before field `k` are in their grammars. */
  predicate MetaValidBefore(fields: seq<string>, k: nat, strict: bool)
    requires |fields| == 6
  {
    && (k > 1 ==> IsTurnText(fields[1]))
    && (k > 2 ==> IsCastleText(fields[2], strict))
    && (k > 3 ==> IsEnPassantText(fields[3], fields[1], strict))
    && (k > 4 ==> IsCounterText(fields[4], strict))
  }

  /** Past the board, the stage fails on the first field, in text order, that breaks its grammar. */
  lemma MetaFailureOrder(fields: seq<string>, board: Board, strict: bool)
    requires |fields| == 6
    ensures var r := DecodeMeta(fields, board, strict);
      && (r == Failure(InvalidTurnField) <==> !IsTurnText(fields[1]))
      && (r == Failure(InvalidCastleRightsField) <==> MetaValidBefore(fields, 2, strict) && !IsCastleText(fields[2], strict))
      && (r == Failure(InvalidEnPassantField)
          <==> MetaValidBefore(fields, 3, strict) && fields[3] != "-" && !IsEnPassantSquare(fields[3]))
      && (r == Failure(WrongRowInEnPassantField)
          <==> MetaValidBefore(fields, 3, strict) && IsEnPassantSquare(fields[3]) && !IsEnPassantText(fields[3], fields[1], strict))
      && (r == Failure(InvalidMoveCountingField(4)) <==> MetaValidBefore(fields, 4, strict) && !IsCounterText(fields[4], strict))
      && (r == Failure(InvalidMoveCountingField(5)) <==> MetaValidBefore(fields, 5, strict) && !IsCounterText(fields[5], strict))
  {
    ColorLookup(fields[1]);
  }

  /** With six fields and eight sub-fields, `_setFEN` reports a board failure exactly when the board field breaks its grammar. */
  lemma BoardFailureOrder(fen: string, strict: bool)
    requires |SplitWs(Trim(fen))| == 6 && |Split(SplitWs(Trim(fen))[0], '/')| == 8
    ensures var r := DecodeFen(fen, strict);
      r.Failure? && IsBoardFailure(r.error.failure) <==> !IsBoardText(SplitWs(Trim(fen))[0])
  {
    var ranks := Split(SplitWs(Trim(fen))[0], '/');
    RanksAcceptance(ranks, 7, EMPTY_BOARD);
    RankTextsFromAll(ranks, 7);
    var board := ParseRanks(ranks, 7, EMPTY_BOARD);
    if board.Success? {
      FailureAfterBoard(fen, strict, board.value);
    }
  }

  /**
    When the board field is in its grammar, the failure `_setFEN` reports belongs to the first
    later field, in text order, that breaks its grammar.
   */
  lemma DecodeFenFailureOrder(fen: string, strict: bool)
    requires |SplitWs(Trim(fen))| == 6 && IsBoardText(SplitWs(Trim(fen))[0])
    ensures var r := DecodeFen(fen, strict); var fields := SplitWs(Trim(fen));
      && (r.Failure? && r.error.failure == InvalidTurnField <==> !IsTurnText(fields[1]))
      && (r.Failure? && r.error.failure == InvalidCastleRightsField
          <==> MetaValidBefore(fields, 2, strict) && !IsCastleText(fields[2], strict))
      && (r.Failure? && r.error.failure == InvalidEnPassantField
          <==> MetaValidBefore(fields, 3, strict) && fields[3] != "-" && !IsEnPassantSquare(fields[3]))
      && (r.Failure? && r.error.failure == WrongRowInEnPassantField
          <==> MetaValidBefore(fields, 3, strict) && IsEnPassantSquare(fields[3]) && !IsEnPassantText(fields[3], fields[1], strict))
      && (r.Failure? && r.error.failure == InvalidMoveCountingField(4)
          <==> MetaValidBefore(fields, 4, strict) && !IsCounterText(fields[4], strict))
      && (r.Failure? && r.error.failure == InvalidMoveCountingField(5)
          <==> MetaValidBefore(fields, 5, strict) && !IsCounterText(fields[5], strict))
  {
    var fields := SplitWs(Trim(fen));
    var ranks := Split(fields[0], '/');
    RanksAcceptance(ranks, 7, EMPTY_BOARD);
    RankTextsFromAll(ranks, 7);
    var board := ParseRanks(ranks, 7, EMPTY_BOARD).value;
    MetaFailureOrder(fields, board, strict);
    FailureAfterBoard(fen, strict, board);
  }

  /** Once the board field scans, `_setFEN` fails exactly as its turn-to-counters stage does. */
  lemma FailureAfterBoard(fen: string, strict: bool, board: Board)
    requires |SplitWs(Trim(fen))| == 6 && |Split(SplitWs(Trim(fen))[0], '/')| == 8
    requires ParseRanks(Split(SplitWs(Trim(fen))[0], '/'), 7, EMPTY_BOARD) == Success(board)
    ensures var r := DecodeFen(fen, strict); var m := DecodeMeta(SplitWs(Trim(fen)), board, strict);
      && (r.Failure? <==> m.Failure?)
      && (r.Failure? ==> r.error.failure == m.error)
  {
  }

  // ---------------------------------------------------------------------------
  // Strict and lenient modes
  // ---------------------------------------------------------------------------

  /** Past the castle field, whatever strict mode accepts lenient mode decodes to the same result. */
  lemma StrictTailIsLenient(fields: seq<string>, board: Board, turn: Color, rights: CastleRights)
    requires |fields| == 6 && DecodeTail(fields, board, turn, rights, true).Success?
    ensures DecodeTail(fields, board, turn, rights, false) == DecodeTail(fields, board, turn, rights, true)
  {
  }

  lemma StrictMetaIsLenient(fields: seq<string>, board: Board)
    requires |fields| == 6 && DecodeMeta(fields, board, true).Success?
    ensures DecodeMeta(fields, board, false) == DecodeMeta(fields, board, true)
  {
    ColorLookup(fields[1]);
    var turn := IndexOf(COLOR_SYMBOL, fields[1]);
    StrictCastleIsLenient(fields[2]);
    StrictTailIsLenient(fields, board, turn, Castling.FromString(fields[2], true).value);
  }

  /** Strict mode only narrows the grammar: a text it accepts decodes the same way in lenient mode. */
  lemma StrictIsLenient(fen: string)
    requires DecodeFen(fen, true).Success?
    ensures DecodeFen(fen, false) == DecodeFen(fen, true)
  {
    var fields := SplitWs(Trim(fen));
    var board := ParseRanks(Split(fields[0], '/'), 7, EMPTY_BOARD);
    StrictMetaIsLenient(fields, board.value);
  }
}
