/**
  The FEN fields `_getFEN` writes for the two positions `clear()` and `reset()` install,
  stated for any position with that content so that they hold for every counter value.
 */
module StandardFens {
  import opened Strings
  import opened Board
  import opened Castling
  import opened Positions
  import opened FenCodec

  // ---------------------------------------------------------------------------
  // Rank texts
  // ---------------------------------------------------------------------------

  /** The letters of a run of pieces. */
  function PieceText(cells: seq<int>): (s: string)
    requires forall i :: 0 <= i < |cells| ==> 0 <= cells[i] < 12
    ensures |s| == |cells| && forall i :: 0 <= i < |cells| ==> s[i] == COLORED_PIECE_SYMBOL[cells[i]]
  {
    seq(|cells|, i requires 0 <= i < |cells| => COLORED_PIECE_SYMBOL[cells[i]])
  }

  /** Empty squares only accumulate into the pending run length. */
  lemma {:induction false} EmptyCellsEncode(cells: seq<int>, run: nat)
    requires run + |cells| <= 8 && forall i :: 0 <= i < |cells| ==> cells[i] == EMPTY
    ensures EncodeCells(cells, run) == PendingRun(run + |cells|)
    decreases |cells|
  {
    if |cells| > 0 {
      EmptyCellsEncode(cells[1..], run + 1);
    }
  }

  /** A row full of pieces is written as their letters. */
  lemma {:induction false} PiecesEncode(cells: seq<int>)
    requires |cells| <= 8 && forall i :: 0 <= i < |cells| ==> 0 <= cells[i] < 12
    ensures EncodeCells(cells, 0) == PieceText(cells)
    decreases |cells|
  {
    if |cells| > 0 {
      PiecesEncode(cells[1..]);
      assert EncodeCells(cells, 0) == PendingRun(0) + [COLORED_PIECE_SYMBOL[cells[0]]] + EncodeCells(cells[1..], 0);
      assert PieceText(cells) == [COLORED_PIECE_SYMBOL[cells[0]]] + PieceText(cells[1..]);
    }
  }

  /** An empty row is written `8`. */
  lemma EmptyRank(b: Board, r: Coord)
    requires forall c: Coord :: Cell(b, r, c) == EMPTY
    ensures EncodeRank(b, r) == "8"
  {
    EmptyCellsEncode(RowFrom(b, r, 0), 0);
    assert PendingRun(8) == "8";
  }

  /** A full row is written as the letters of its pieces, file a first. */
  lemma FullRank(b: Board, r: Coord, cells: seq<int>, text: string)
    requires RowFrom(b, r, 0) == cells && forall i :: 0 <= i < |cells| ==> 0 <= cells[i] < 12
    requires PieceText(cells) == text
    ensures EncodeRank(b, r) == text
  {
    PiecesEncode(cells);
  }

  // ---------------------------------------------------------------------------
  // The empty board
  // ---------------------------------------------------------------------------

  lemma JoinEights()
    ensures Join(["8", "8", "8", "8", "8", "8", "8", "8"], '/') == "8/8/8/8/8/8/8/8"
  {
  }

  /** An empty board is written `8/8/8/8/8/8/8/8`. */
  lemma EmptyBoardField(b: Board)
    requires IsEmptyBoard(b)
    ensures BoardField(b) == "8/8/8/8/8/8/8/8"
  {
    var ranks := RankFields(b);
    forall i | 0 <= i < 8
      ensures ranks[i] == "8"
    {
      EmptyRank(b, 7 - i);
    }
    assert ranks == ["8", "8", "8", "8", "8", "8", "8", "8"];
    JoinEights();
  }

  /** The fields `_getFEN` writes after `clear()`: `8/8/8/8/8/8/8/8 w - -` and the counters. */
  lemma EmptyPositionFields(p: Position, fiftyMoveClock: nat, fullMoveNumber: nat)
    requires IsEmptyBoard(p.board) && p.turn == WHITE && p.castleRights == NO_CASTLE_RIGHTS && p.enPassant == -1
    ensures FenFields(p, fiftyMoveClock, fullMoveNumber)
      == ["8/8/8/8/8/8/8/8", "w", "-", "-", NatToString(fiftyMoveClock), NatToString(fullMoveNumber)]
  {
    EmptyBoardField(p.board);
    assert Castling.ToString(p.castleRights) == "-";
  }

  // ---------------------------------------------------------------------------
  // The starting board
  // ---------------------------------------------------------------------------

  predicate IsStartBoard(b: Board) {
    forall row: Coord, column: Coord :: Cell(b, row, column) == StartCell(row, column)
  }

  lemma StartRanks(b: Board)
    requires IsStartBoard(b)
    ensures EncodeRank(b, 0) == "RNBQKBNR" && EncodeRank(b, 1) == "PPPPPPPP"
    ensures EncodeRank(b, 6) == "pppppppp" && EncodeRank(b, 7) == "rnbqkbnr"
    ensures forall r: Coord :: 2 <= r < 6 ==> EncodeRank(b, r) == "8"
  {
    WhiteBackRank(b);
    WhitePawns(b);
    BlackPawns(b);
    BlackBackRank(b);
    forall r: Coord | 2 <= r < 6
      ensures EncodeRank(b, r) == "8"
    {
      EmptyRank(b, r);
    }
  }

  /** Row `r` of a starting board, as the cells the encoder scans. */
  lemma StartRow(b: Board, r: Coord, cells: seq<int>)
    requires IsStartBoard(b)
    requires |cells| == 8 && forall c: Coord :: cells[c] == StartCell(r, c)
    ensures RowFrom(b, r, 0) == cells
  {
  }

  lemma WhiteBackRank(b: Board)
    requires IsStartBoard(b)
    ensures EncodeRank(b, 0) == "RNBQKBNR"
  {
    WhiteBackRankCells(b);
    WhiteBackRankLetters();
    FullRank(b, 0, [WR, WN, WB, WQ, WK, WB, WN, WR], "RNBQKBNR");
  }

  lemma WhiteBackRankCells(b: Board)
    requires IsStartBoard(b)
    ensures RowFrom(b, 0, 0) == [WR, WN, WB, WQ, WK, WB, WN, WR]
  {
    StartRow(b, 0, [WR, WN, WB, WQ, WK, WB, WN, WR]);
  }

  lemma WhiteBackRankLetters()
    ensures PieceText([WR, WN, WB, WQ, WK, WB, WN, WR]) == "RNBQKBNR"
  {
  }

  lemma WhitePawns(b: Board)
    requires IsStartBoard(b)
    ensures EncodeRank(b, 1) == "PPPPPPPP"
  {
    WhitePawnsCells(b);
    WhitePawnsLetters();
    FullRank(b, 1, [WP, WP, WP, WP, WP, WP, WP, WP], "PPPPPPPP");
  }

  lemma WhitePawnsCells(b: Board)
    requires IsStartBoard(b)
    ensures RowFrom(b, 1, 0) == [WP, WP, WP, WP, WP, WP, WP, WP]
  {
    StartRow(b, 1, [WP, WP, WP, WP, WP, WP, WP, WP]);
  }

  lemma WhitePawnsLetters()
    ensures PieceText([WP, WP, WP, WP, WP, WP, WP, WP]) == "PPPPPPPP"
  {
  }

  lemma BlackPawns(b: Board)
    requires IsStartBoard(b)
    ensures EncodeRank(b, 6) == "pppppppp"
  {
    BlackPawnsCells(b);
    BlackPawnsLetters();
    FullRank(b, 6, [BP, BP, BP, BP, BP, BP, BP, BP], "pppppppp");
  }

  lemma BlackPawnsCells(b: Board)
    requires IsStartBoard(b)
    ensures RowFrom(b, 6, 0) == [BP, BP, BP, BP, BP, BP, BP, BP]
  {
    StartRow(b, 6, [BP, BP, BP, BP, BP, BP, BP, BP]);
  }

  lemma BlackPawnsLetters()
    ensures PieceText([BP, BP, BP, BP, BP, BP, BP, BP]) == "pppppppp"
  {
  }

  lemma BlackBackRank(b: Board)
    requires IsStartBoard(b)
    ensures EncodeRank(b, 7) == "rnbqkbnr"
  {
    BlackBackRankCells(b);
    BlackBackRankLetters();
    FullRank(b, 7, [BR, BN, BB, BQ, BK, BB, BN, BR], "rnbqkbnr");
  }

  lemma BlackBackRankCells(b: Board)
    requires IsStartBoard(b)
    ensures RowFrom(b, 7, 0) == [BR, BN, BB, BQ, BK, BB, BN, BR]
  {
    StartRow(b, 7, [BR, BN, BB, BQ, BK, BB, BN, BR]);
  }

  lemma BlackBackRankLetters()
    ensures PieceText([BR, BN, BB, BQ, BK, BB, BN, BR]) == "rnbqkbnr"
  {
  }

  /** The starting board's sub-fields, rank 8 first; `_getFEN` joins them with `/`. */
  lemma StartRankFields(b: Board)
    requires IsStartBoard(b)
    ensures var ranks := RankFields(b);
      && ranks[0] == "rnbqkbnr" && ranks[1] == "pppppppp"
      && ranks[2] == "8" && ranks[3] == "8" && ranks[4] == "8" && ranks[5] == "8"
      && ranks[6] == "PPPPPPPP" && ranks[7] == "RNBQKBNR"
  {
    StartRanks(b);
  }

  /** The fields `_getFEN` writes after `reset()`: the standard starting FEN and the counters. */
  lemma StartPositionFields(p: Position, fiftyMoveClock: nat, fullMoveNumber: nat)
    requires IsStartBoard(p.board) && p.turn == WHITE && p.castleRights == ALL_CASTLE_RIGHTS && p.enPassant == -1
    ensures FenFields(p, fiftyMoveClock, fullMoveNumber)
      == [BoardField(p.board), "w", "KQkq", "-", NatToString(fiftyMoveClock), NatToString(fullMoveNumber)]
  {
    assert Castling.ToString(p.castleRights) == "KQkq";
  }

  /** After `reset()` the board is the starting board. */
  lemma ResetIsStartBoard()
    ensures IsStartBoard(Reset().board)
  {
    ResetLayout();
  }

  /** After `reset()`, `fen()` writes the starting FEN's fields. */
  lemma ResetFields(fiftyMoveClock: nat, fullMoveNumber: nat)
    ensures FenFields(Reset(), fiftyMoveClock, fullMoveNumber)
      == [BoardField(Reset().board), "w", "KQkq", "-", NatToString(fiftyMoveClock), NatToString(fullMoveNumber)]
  {
    var p := Reset();
    ResetIsStartBoard();
    StartPositionFields(p, fiftyMoveClock, fullMoveNumber);
  }

  /** After `clear()`, `fen()` describes the empty board with white to move and no rights. */
  lemma ClearedFields(fiftyMoveClock: nat, fullMoveNumber: nat)
    ensures FenFields(Clear(), fiftyMoveClock, fullMoveNumber)
      == ["8/8/8/8/8/8/8/8", "w", "-", "-", NatToString(fiftyMoveClock), NatToString(fullMoveNumber)]
  {
    EmptyPositionFields(Clear(), fiftyMoveClock, fullMoveNumber);
  }

  /** Six fields joined by spaces, spelled out. */
  lemma JoinSix(a: string, b: string, c: string, d: string, e: string, f: string)
    ensures Join([a, b, c, d, e, f], ' ') == a + " " + b + " " + c + " " + d + " " + e + " " + f
  {
    var ef := Join([e, f], ' ');
    assert ef == e + " " + f by { assert [e, f][1..] == [f]; assert Join([f], ' ') == f; }
    var def := Join([d, e, f], ' ');
    assert def == d + " " + ef by { assert [d, e, f][1..] == [e, f]; }
    var cdef := Join([c, d, e, f], ' ');
    assert cdef == c + " " + def by { assert [c, d, e, f][1..] == [d, e, f]; }
    var bcdef := Join([b, c, d, e, f], ' ');
    assert bcdef == b + " " + cdef by { assert [b, c, d, e, f][1..] == [c, d, e, f]; }
    assert Join([a, b, c, d, e, f], ' ') == a + " " + bcdef by { assert [a, b, c, d, e, f][1..] == [b, c, d, e, f]; }
  }

  /** An empty board, white to move, no rights and no en-passant file: `fen()` writes the empty FEN. */
  lemma EmptyFen(p: Position)
    requires IsEmptyBoard(p.board) && p.turn == WHITE && p.castleRights == NO_CASTLE_RIGHTS && p.enPassant == -1
    ensures GetFen(p, 0, 1) == "8/8/8/8/8/8/8/8 w - - 0 1"
  {
    EmptyFenText(p);
  }

  lemma EmptyFenText(p: Position)
    requires IsEmptyBoard(p.board) && p.turn == WHITE && p.castleRights == NO_CASTLE_RIGHTS && p.enPassant == -1
    ensures Join(FenFields(p, 0, 1), ' ') == "8/8/8/8/8/8/8/8 w - - 0 1"
  {
    EmptyPositionFields(p, 0, 1);
    assert NatToString(0) == "0" && NatToString(1) == "1";
    JoinSix("8/8/8/8/8/8/8/8", "w", "-", "-", "0", "1");
  }

  /** After `clear()`, `fen()` returns `8/8/8/8/8/8/8/8 w - - 0 1`. */
  lemma ClearedFen()
    ensures GetFen(Clear(), 0, 1) == "8/8/8/8/8/8/8/8 w - - 0 1"
  {
    EmptyFen(Clear());
  }

  /**
    White to move, every castle right, no en-passant file: `fen()` writes the board field
    followed by ` w KQkq - 0 1`, whatever the board.
   */
  lemma StartMetaFen(p: Position)
    requires p.turn == WHITE && p.castleRights == ALL_CASTLE_RIGHTS && p.enPassant == -1
    ensures GetFen(p, 0, 1) == BoardField(p.board) + " " + "w KQkq - 0 1"
  {
    StartMetaFields(p);
    StartMetaText();
    BoardThenMeta(p, 0, 1);
  }

  lemma StartMetaFields(p: Position)
    requires p.turn == WHITE && p.castleRights == ALL_CASTLE_RIGHTS && p.enPassant == -1
    ensures FenFields(p, 0, 1)[1..] == ["w", "KQkq", "-", "0", "1"]
  {
    assert Castling.ToString(p.castleRights) == "KQkq";
    assert NatToString(0) == "0" && NatToString(1) == "1";
  }

  /** `_getFEN` writes the board field, a space, then the other five fields. */
  lemma BoardThenMeta(p: Position, fiftyMoveClock: nat, fullMoveNumber: nat)
    ensures GetFen(p, fiftyMoveClock, fullMoveNumber)
      == BoardField(p.board) + [' '] + Join(FenFields(p, fiftyMoveClock, fullMoveNumber)[1..], ' ')
  {
  }

  /** The meta-data fields of the starting position, joined. */
  lemma StartMetaText()
    ensures Join(["w", "KQkq", "-", "0", "1"], ' ') == "w KQkq - 0 1"
  {
    JoinFive("w", "KQkq", "-", "0", "1");
  }

  lemma JoinFive(b: string, c: string, d: string, e: string, f: string)
    ensures Join([b, c, d, e, f], ' ') == b + " " + c + " " + d + " " + e + " " + f
  {
    var ef := Join([e, f], ' ');
    assert ef == e + " " + f by { assert [e, f][1..] == [f]; assert Join([f], ' ') == f; }
    var def := Join([d, e, f], ' ');
    assert def == d + " " + ef by { assert [d, e, f][1..] == [e, f]; }
    var cdef := Join([c, d, e, f], ' ');
    assert cdef == c + " " + def by { assert [c, d, e, f][1..] == [d, e, f]; }
    assert Join([b, c, d, e, f], ' ') == b + " " + cdef by { assert [b, c, d, e, f][1..] == [c, d, e, f]; }
  }

  /** After `reset()`, `fen()` returns the standard starting FEN. */
  lemma ResetFen()
    ensures GetFen(Reset(), 0, 1) == "rnbqkbnr/pppppppp/8/8/8/8/PPPPPPPP/RNBQKBNR w KQkq - 0 1"
  {
    ResetIsStartBoard();
    StartFen(Reset());
  }

  /** The starting board, white to move, every castle right, no en-passant file: the standard starting FEN. */
  lemma StartFen(p: Position)
    requires IsStartBoard(p.board) && p.turn == WHITE && p.castleRights == ALL_CASTLE_RIGHTS && p.enPassant == -1
    ensures GetFen(p, 0, 1) == "rnbqkbnr/pppppppp/8/8/8/8/PPPPPPPP/RNBQKBNR w KQkq - 0 1"
  {
    StartMetaFen(p);
    StartBoardField(p.board);
    StartFenText();
  }

  lemma StartFenText()
    ensures "rnbqkbnr/pppppppp/8/8/8/8/PPPPPPPP/RNBQKBNR" + " " + "w KQkq - 0 1"
      == "rnbqkbnr/pppppppp/8/8/8/8/PPPPPPPP/RNBQKBNR w KQkq - 0 1"
  {
  }

  /** The starting board is written `rnbqkbnr/pppppppp/8/8/8/8/PPPPPPPP/RNBQKBNR`. */
  lemma StartBoardField(b: Board)
    requires IsStartBoard(b)
    ensures BoardField(b) == "rnbqkbnr/pppppppp/8/8/8/8/PPPPPPPP/RNBQKBNR"
  {
    StartRankList(b);
    JoinEight("rnbqkbnr", "pppppppp", "8", "8", "8", "8", "PPPPPPPP", "RNBQKBNR");
    StartBoardText();
  }

  lemma StartRankList(b: Board)
    requires IsStartBoard(b)
    ensures RankFields(b) == ["rnbqkbnr", "pppppppp", "8", "8", "8", "8", "PPPPPPPP", "RNBQKBNR"]
  {
    StartRankFields(b);
    EightElements(RankFields(b), "rnbqkbnr", "pppppppp", "8", "8", "8", "8", "PPPPPPPP", "RNBQKBNR");
  }

  lemma EightElements(r: seq<string>, a: string, b: string, c: string, d: string, e: string, f: string, g: string, h: string)
    requires |r| == 8 && r[0] == a && r[1] == b && r[2] == c && r[3] == d
    requires r[4] == e && r[5] == f && r[6] == g && r[7] == h
    ensures r == [a, b, c, d, e, f, g, h]
  {
  }

  lemma StartBoardText()
    ensures "rnbqkbnr" + "/" + "pppppppp" + "/" + "8" + "/" + "8" + "/" + "8" + "/" + "8" + "/" + "PPPPPPPP" + "/" + "RNBQKBNR"
      == "rnbqkbnr/pppppppp/8/8/8/8/PPPPPPPP/RNBQKBNR"
  {
  }

  /** Eight sub-fields joined by `/`, spelled out. */
  lemma JoinEight(a: string, b: string, c: string, d: string, e: string, f: string, g: string, h: string)
    ensures Join([a, b, c, d, e, f, g, h], '/') == a + "/" + b + "/" + c + "/" + d + "/" + e + "/" + f + "/" + g + "/" + h
  {
    var gh := Join([g, h], '/');
    assert gh == g + "/" + h by { assert [g, h][1..] == [h]; assert Join([h], '/') == h; }
    var fgh := Join([f, g, h], '/');
    assert fgh == f + "/" + gh by { assert [f, g, h][1..] == [g, h]; }
    var efgh := Join([e, f, g, h], '/');
    assert efgh == e + "/" + fgh by { assert [e, f, g, h][1..] == [f, g, h]; }
    var defgh := Join([d, e, f, g, h], '/');
    assert defgh == d + "/" + efgh by { assert [d, e, f, g, h][1..] == [e, f, g, h]; }
    var cdefgh := Join([c, d, e, f, g, h], '/');
    assert cdefgh == c + "/" + defgh by { assert [c, d, e, f, g, h][1..] == [d, e, f, g, h]; }
    var bcdefgh := Join([b, c, d, e, f, g, h], '/');
    assert bcdefgh == b + "/" + cdefgh by { assert [b, c, d, e, f, g, h][1..] == [c, d, e, f, g, h]; }
    assert Join([a, b, c, d, e, f, g, h], '/') == a + "/" + bcdefgh by { assert [a, b, c, d, e, f, g, h][1..] == [b, c, d, e, f, g, h]; }
  }
}
