/**
  `ascii()`: a fixed-width drawing of the board, rank 8 at the top, each square drawn as
  `| x ` with the piece letter or a blank, followed by one line of meta-data: the side to
  move, the FEN castle field and the en-passant column letter.
 */
module Diagram {
  import opened Board
  import opened Castling
  import opened Positions

  /** The line drawn above, between and below the ranks. */
  const SEPARATOR: string := "+---+---+---+---+---+---+---+---+\n"

  /** A rank line and the separator under it. */
  const RANK_HEIGHT: nat := 68

  /** The letter of a coloured piece, or a blank for an empty square. */
  function SquareChar(v: int): (ch: char)
    requires EMPTY <= v < 12
    ensures ch == ' ' <==> v == EMPTY
  {
    if v < 0 then ' ' else COLORED_PIECE_SYMBOL[v]
  }

  /** Every entry is EMPTY or a coloured piece. */
  predicate AreSquareValues(cells: seq<int>) {
    forall k :: 0 <= k < |cells| ==> EMPTY <= cells[k] < 12
  }

  /** Row `r` of the board, column a first. */
  function RankCells(b: Board, r: Coord): (cells: seq<int>)
    ensures |cells| == 8 && AreSquareValues(cells)
    ensures forall c: Coord :: cells[c] == Cell(b, r, c)
  {
    seq(8, (c: int) requires 0 <= c < 8 => Cell(b, r, c))
  }

  /** The rows in the order they are drawn: row 7 (rank 8) first. */
  function DrawnRanks(b: Board): (ranks: seq<seq<int>>)
    ensures |ranks| == 8 && forall i :: 0 <= i < 8 ==> ranks[i] == RankCells(b, 7 - i)
  {
    seq(8, (i: int) requires 0 <= i < 8 => RankCells(b, 7 - i))
  }

  /** `| x ` for each square of a row. */
  function CellsText(cells: seq<int>): string
    requires AreSquareValues(cells)
  {
    if |cells| == 0 then "" else "| " + [SquareChar(cells[0])] + " " + CellsText(cells[1..])
  }

  /** Each row closed by `|` and followed by a separator. */
  function RanksText(ranks: seq<seq<int>>): string
    requires forall i :: 0 <= i < |ranks| ==> AreSquareValues(ranks[i])
  {
    if |ranks| == 0 then "" else CellsText(ranks[0]) + "|\n" + SEPARATOR + RanksText(ranks[1..])
  }

  /** The meta-data line: side to move, castle field, en-passant column or `-`. */
  function MetaLine(p: Position): string {
    [COLOR_SYMBOL[p.turn]] + " " + Castling.ToString(p.castleRights) + " " + EnPassantText(p.enPassant)
  }

  /**
    `p.ascii()`: every square is shown at a fixed place, rank 8 on top, and the meta-data
    line follows the 17 board lines.
   */
  function Ascii(p: Position): (s: string)
    ensures |s| == |SEPARATOR| + RANK_HEIGHT * 8 + |MetaLine(p)|
    ensures forall r: Coord, c: Coord :: s[SquareOffset(r, c)] == SquareChar(Cell(p.board, r, c))
    ensures s[|SEPARATOR| + RANK_HEIGHT * 8..] == MetaLine(p)
  {
    DiagramLayout(p.board, MetaLine(p));
    SEPARATOR + RanksText(DrawnRanks(p.board)) + MetaLine(p)
  }

  /** Where the letter of square (`r`, `c`) sits in the diagram. */
  function SquareOffset(r: Coord, c: Coord): nat {
    |SEPARATOR| + RANK_HEIGHT * (7 - r) + 4 * c + 2
  }

  // ---------------------------------------------------------------------------
  // Reading the diagram
  // ---------------------------------------------------------------------------

  /** Different square contents are drawn with different characters. */
  lemma SquareCharInjective(v: int, w: int)
    requires EMPTY <= v < 12 && EMPTY <= w < 12
    ensures SquareChar(v) == SquareChar(w) <==> v == w
  {
    if 0 <= v && 0 <= w && v != w {
      assert COLORED_PIECE_SYMBOL[v] != COLORED_PIECE_SYMBOL[w];
    }
  }

  lemma {:induction false} CellsTextLayout(cells: seq<int>)
    requires AreSquareValues(cells)
    ensures |CellsText(cells)| == 4 * |cells|
    ensures forall k :: 0 <= k < |cells| ==> CellsText(cells)[4 * k + 2] == SquareChar(cells[k])
    decreases |cells|
  {
    if |cells| > 0 {
      CellsTextLayout(cells[1..]);
      forall k | 0 < k < |cells|
        ensures CellsText(cells)[4 * k + 2] == SquareChar(cells[k])
      {
        assert CellsText(cells)[4 * k + 2] == CellsText(cells[1..])[4 * (k - 1) + 2];
      }
    }
  }

  lemma {:induction false} RanksTextLayout(ranks: seq<seq<int>>)
    requires forall i :: 0 <= i < |ranks| ==> |ranks[i]| == 8 && AreSquareValues(ranks[i])
    ensures |RanksText(ranks)| == RANK_HEIGHT * |ranks|
    ensures forall i, c :: 0 <= i < |ranks| && 0 <= c < 8 ==> RanksText(ranks)[RANK_HEIGHT * i + 4 * c + 2] == SquareChar(ranks[i][c])
    decreases |ranks|
  {
    if |ranks| > 0 {
      CellsTextLayout(ranks[0]);
      RanksTextLayout(ranks[1..]);
      var line := CellsText(ranks[0]) + "|\n" + SEPARATOR;
      assert |line| == RANK_HEIGHT;
      forall i, c | 0 <= i < |ranks| && 0 <= c < 8
        ensures RanksText(ranks)[RANK_HEIGHT * i + 4 * c + 2] == SquareChar(ranks[i][c])
      {
        if i == 0 {
          assert RanksText(ranks)[4 * c + 2] == CellsText(ranks[0])[4 * c + 2];
        } else {
          assert RanksText(ranks)[RANK_HEIGHT * i + 4 * c + 2] == RanksText(ranks[1..])[RANK_HEIGHT * (i - 1) + 4 * c + 2];
        }
      }
    }
  }

  /** The board lines of a diagram of `b` followed by the line `meta`. */
  lemma DiagramLayout(b: Board, meta: string)
    ensures var s := SEPARATOR + RanksText(DrawnRanks(b)) + meta;
      && |s| == |SEPARATOR| + RANK_HEIGHT * 8 + |meta|
      && (forall r: Coord, c: Coord :: s[SquareOffset(r, c)] == SquareChar(Cell(b, r, c)))
      && s[|SEPARATOR| + RANK_HEIGHT * 8..] == meta
  {
    var ranks := DrawnRanks(b);
    var s := SEPARATOR + RanksText(ranks) + meta;
    RanksTextLayout(ranks);
    forall r: Coord, c: Coord
      ensures s[SquareOffset(r, c)] == SquareChar(Cell(b, r, c))
    {
      assert ranks[7 - r][c] == Cell(b, r, c);
      assert s[SquareOffset(r, c)] == RanksText(ranks)[RANK_HEIGHT * (7 - r) + 4 * c + 2];
    }
  }

  /**
    Nothing the diagram is meant to show is lost: two positions with the same diagram have the
    same board, side to move, FEN castle rights and en-passant file.
   */
  lemma AsciiDeterminesPosition(p: Position, q: Position)
    requires Ascii(p) == Ascii(q)
    ensures p.board == q.board && p.turn == q.turn && p.enPassant == q.enPassant
    ensures FenBits(p.castleRights) == FenBits(q.castleRights)
  {
    forall r: Coord, c: Coord
      ensures Cell(p.board, r, c) == Cell(q.board, r, c)
    {
      assert Ascii(p)[SquareOffset(r, c)] == Ascii(q)[SquareOffset(r, c)];
      SquareCharInjective(Cell(p.board, r, c), Cell(q.board, r, c));
    }
    BoardsEqual(p.board, q.board);
    MetaLineDeterminesMeta(p, q);
  }

  lemma MetaLineDeterminesMeta(p: Position, q: Position)
    requires MetaLine(p) == MetaLine(q)
    ensures p.turn == q.turn && p.enPassant == q.enPassant
    ensures FenBits(p.castleRights) == FenBits(q.castleRights)
  {
    MetaParts(COLOR_SYMBOL[p.turn], Castling.ToString(p.castleRights), EnPassantText(p.enPassant),
              COLOR_SYMBOL[q.turn], Castling.ToString(q.castleRights), EnPassantText(q.enPassant));
    EnPassantTextInjective(p.enPassant, q.enPassant);
    FromToString(p.castleRights, false);
    FromToString(q.castleRights, false);
  }

  /** The last part of the meta-data line: the en-passant column letter, or `-`. */
  function EnPassantText(file: EnPassantFile): (s: string)
    ensures |s| == 1
    ensures s == "-" <==> file == -1
    ensures file >= 0 ==> s[0] == COLUMN_SYMBOL[file]
  {
    if file < 0 then "-" else [COLUMN_SYMBOL[file]]
  }

  lemma EnPassantTextInjective(f: EnPassantFile, g: EnPassantFile)
    ensures EnPassantText(f) == EnPassantText(g) <==> f == g
  {
    if f >= 0 && g >= 0 && f != g {
      assert EnPassantText(f)[0] != EnPassantText(g)[0];
    }
  }

  /** A line of a character, a word and a one-character tail, space-separated, splits back uniquely. */
  lemma MetaParts(a: char, x: string, e: string, a': char, x': string, e': string)
    requires |e| == 1 && |e'| == 1
    requires [a] + " " + x + " " + e == [a'] + " " + x' + " " + e'
    ensures a == a' && x == x' && e == e'
  {
    var m := [a] + " " + x + " " + e;
    assert m[0] == a && ([a'] + " " + x' + " " + e')[0] == a';
    assert |x| == |x'|;
    assert x == m[2..|m| - 2] && x' == ([a'] + " " + x' + " " + e')[2..|m| - 2];
    assert e == m[|m| - 1..] && e' == ([a'] + " " + x' + " " + e')[|m| - 1..];
  }
}
