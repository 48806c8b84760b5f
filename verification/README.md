# Chess position and FEN codec

This project models the position core of RPB Chessboard's `js/chess2.js`: the `Position`
object with its 120-cell bordered board, side to move, castle rights, en-passant file and
the two caches (legality and king squares); `clear()` and `reset()`; the FEN encoder
`_getFEN` and the FEN decoder `_setFEN` with their strict and lenient modes and the ordered
failure catalogue; the castle-rights codec; the `square`, `turn`, `castleRights` and
`enPassant` accessors; the overloaded `fen()` method; the constructor; and `ascii()`.

FEN (Forsyth–Edwards Notation) is the position format of section 16.1 of the PGN Standard.

The model is functional. A `Position` is an immutable datatype, and the board is a
`seq<int>` of 120 cells addressed as `21 + 10 * row + column`. Border cells hold
`INVALID` (-2), empty squares hold `EMPTY` (-1), and a piece is `2 * kind + colour`.
Exceptions become `Result` values:

- `IllegalArgument` carries the operation's name;
- `InvalidFen` carries the trimmed text and a tagged `FenFailure`.

A setter returns the updated position. `_setFEN` returns a `SetFenOutcome`, which says
whether the position was replaced or left untouched.

JavaScript library behaviour is written out explicitly in `strings.dfy`:

- the trim `fen.replace(/^\s+|\s+$/g, '')` and `split(/\s+/)`, over a fixed list of whitespace code points;
- `split('/')`;
- `indexOf` as substring search;
- `parseInt` on digit strings.

Several quirks of the code are kept as written:

- `indexOf` is substring search. `turn('wb')`, `turn('')` and a FEN turn field `wb` all
  mean white. `enPassant('abc')` selects file a.
- The side tokens of `castleRights(color, side)` are swapped with respect to FEN. `k` is
  column 0, which the codec writes as `Q`, and `q` is column 7, written as `K`.
- `_legal` is `false` after `clear()` and `true` after `reset()`. It is unknown (`null`)
  after a decode and after any setter.
- A successful decode leaves the king cache at `[-1, -1]`, because `_setFEN` calls
  `clear()` and never recomputes it.
- `_setFEN` throws its first two failures before touching the position. Every later
  failure happens after `clear()`.

Modules, one per file: `Results`, `Strings`, `Board`, `Castling`, `Positions`, `FenCodec`,
`FenGrammar` (the accepted language as an independent grammar), `CanonicalFen` (the
texts the encoder writes, and their round trip), `StandardFens` (the canonical positions' FEN), `PositionApi` (`_setFEN` as a state change, `fen()`, the
constructor) and `Diagram` (`ascii()`).

## Model

| member | source | states |
|---|---|---|
| Strings.TrimStart | js/chess2.js:349 | the result is a suffix of the input, everything dropped is whitespace, and the result does not start with whitespace |
| Strings.TrimEnd | js/chess2.js:349 | the result is a prefix of the input, everything dropped is whitespace, and the result does not end with whitespace |
| Strings.Trim | js/chess2.js:349 | the trimmed text is the input with a run of whitespace removed at each end, and neither starts nor ends with whitespace |
| Strings.TrimNoOp | js/chess2.js:349 | a text that neither starts nor ends with whitespace is unchanged by trimming |
| Strings.SplitWs | js/chess2.js:350 | splitting on whitespace runs yields at least one piece and no piece contains whitespace |
| Strings.SplitWsTrimmed | js/chess2.js:349-350 | a trimmed text splits into non-empty pieces, and joining them with single spaces collapses every whitespace run of the text to one space |
| Strings.SplitWsJoinTrimmed | js/chess2.js:349-350 | non-empty words joined by single spaces, trimmed and split on whitespace, give back exactly the words |
| Strings.Split | js/chess2.js:356 | splitting on `/` yields at least one piece, none contains `/`, and joining the pieces with `/` restores the text |
| Strings.SplitJoin | js/chess2.js:356 | pieces without `/`, joined with `/` and split again, come back unchanged |
| Strings.IndexOf | js/chess2.js:401 | the result is -1 exactly when the needle does not occur, otherwise the first position where it occurs; an empty needle is found at 0 |
| Strings.SubstringOfOne | js/chess2.js:372 | a one-character needle occurs exactly when the character is in the text |
| Strings.IndexOfDistinct | js/chess2.js:493-494 | in a text of distinct characters, looking up the character at position k gives k |
| Strings.NatToString | js/chess2.js:331 | a counter is written as a canonical decimal numeral (no leading zero) |
| Strings.ParseDecimal | js/chess2.js:425-432 | `parseInt` of a numeral without leading zeros is the number that numeral is written as, so writing it again gives the numeral back |
| Strings.LeadingZero | js/chess2.js:425-432 | a leading zero does not change the value `parseInt` reads from a digit string |
| Strings.ParseDecimalDigits | js/chess2.js:425-432 | any digit string, leading zeros included, reads as the value of the same numeral with its leading zeros stripped, and writing that value back gives the stripped numeral (`007` reads as 7 and is written `7`) |
| Strings.ParseNatToString | js/chess2.js:432 | `parseInt` of the numeral `_getFEN` writes for a counter gives back the number |
| Strings.JoinLength | js/chess2.js:331 | non-empty parts joined with a separator give a text of at least one character per part and per separator |
| Board.ColoredPieceOf | js/chess2.js:123-131 | a coloured piece code divided by 2 is its kind and modulo 2 its colour, and its letter is the kind's letter, upper case for white |
| Board.SquareIndex | js/chess2.js:514 | `21 + 10 * row + column` is always a playing cell, never a border cell |
| Board.SquareCoords | js/chess2.js:514 | the row and column are recovered from a playing cell's index |
| Board.InteriorIsSquare | js/chess2.js:174-186 | every playing cell of the 10×12 array is `21 + 10 * row + column` for some row and column |
| Board.StartBoardLayout | js/chess2.js:206-219 | the starting board is well formed and each square holds the piece of the standard arrangement |
| Board.SetCell | js/chess2.js:526-543 | after writing a square it reads the value written, and every other square reads as before |
| Board.Cell | js/chess2.js:514 | a playing cell holds EMPTY or a coloured piece code |
| Board.BoardsEqual | js/chess2.js:174-186 | two well-formed boards with the same 64 squares are equal |
| Castling.ToString | js/chess2.js:442-450 | `-` exactly when neither bit 7 nor bit 0 is set for either colour; otherwise a text in the strict grammar holding `K`/`Q`/`k`/`q` exactly for white bit 7, white bit 0, black bit 7 and black bit 0 |
| Castling.FromString | js/chess2.js:460-474 | accepted exactly when the text is `-` or in the strict `K?Q?k?q?` or the lenient `[KQkq]*` grammar; a letter present sets its bit; no other bit is set |
| Castling.FromToString | js/chess2.js:442-474 | decoding the encoded rights, in either mode, gives the rights cut to bits 0 and 7 |
| Castling.FromToStringExact | js/chess2.js:442-474 | rights that use only bits 0 and 7 survive encoding and decoding unchanged |
| Castling.ToFromString | js/chess2.js:442-474 | a non-empty strict castle text, decoded and encoded again, comes back unchanged |
| Castling.MatchedIsSortedLetters | js/chess2.js:465 | a text of the strict grammar is the ordered subsequence of `KQkq` of the letters it contains |
| Castling.LenientIgnoresOrderAndRepeats | js/chess2.js:465-472 | in lenient mode, two texts with the same set of letters give the same rights: order and repetitions do not matter |
| Castling.StrictCastleIsLenient | js/chess2.js:465 | whatever strict decoding accepts, lenient decoding accepts with the same rights |
| Castling.MaskOf | js/chess2.js:469-472 | the mask built for a colour has bit 7 exactly when the high letter is present, bit 0 exactly when the low one is, and nothing else |
| Positions.Clear | js/chess2.js:171-197 | every square is empty, white is to move, no castle rights, no en-passant file, `_legal` false, king cache `[-1, -1]` |
| Positions.Reset | js/chess2.js:203-229 | white is to move, both colours hold rights 129 (bits 0 and 7), no en-passant file, `_legal` true |
| Positions.ResetLayout | js/chess2.js:206-219 | after `reset()` each square holds the standard arrangement |
| Positions.ResetKings | js/chess2.js:206-228 | after `reset()` the kings are on e1 and e8 and the king cache holds exactly those two squares |
| Board.InitialBoardLayout | js/chess2.js:174-219 | either initial board is well formed, and each square holds EMPTY or the piece of the standard arrangement |
| Positions.ColorLookup | js/chess2.js:578-588 | looking a token up in `wb` gives black exactly for `b` and succeeds exactly for `""`, `w`, `b` and `wb` |
| Positions.ColumnSymbolLookup | js/chess2.js:493 | a file letter a–h is found at its column |
| Positions.RowSymbolLookup | js/chess2.js:494 | a rank digit 1–8 is found at its row |
| Positions.SquareOf | js/chess2.js:490-494 | a square name `[a-h][1-8]` maps to the row and column whose symbols it spells |
| Positions.SquareOfInjective | js/chess2.js:490-494 | different square names address different squares |
| Positions.GetSquareAt | js/chess2.js:513-516 | `-` exactly for an empty square, otherwise one-letter piece and colour tokens whose codes give back the cell as `2 * piece + colour` |
| Positions.SetSquareAt | js/chess2.js:526-543 | the write succeeds exactly for `-` or a piece/colour pair both tokens of which are found; on success the legality cache is unknown |
| Positions.GetSquare | js/chess2.js:489-497 | `square(name)` fails with `IllegalArgument("Position#square()")` exactly when the name is not `[a-h][1-8]`, and otherwise reads the square whose file and rank letters the name spells |
| Positions.SetSquare | js/chess2.js:489-502 | `square(name, value)` fails with `IllegalArgument("Position#square()")` exactly when the name or the value is malformed; on success the legality cache is unknown |
| Positions.SetThenGetSquare | js/chess2.js:489-543 | after a successful write, reading the square gives the value written (exactly, for one-letter tokens), every other square and field reads as before, and the legality cache is unknown |
| Positions.OtherSquareUnchanged | js/chess2.js:526-543 | writing one square leaves every other square's reading unchanged |
| Positions.WrittenSquareReadsBack | js/chess2.js:513-543 | the square written reads back as the empty mark or as the tokens of the piece and colour found |
| Positions.OneLetterReadBack | js/chess2.js:513-543 | for one-letter piece and colour tokens the value read back is the value written |
| Positions.GetTurn | js/chess2.js:568-570 | `turn()` is `w` or `b`, and `b` exactly when black is to move |
| Positions.SetTurn | js/chess2.js:551-588 | `turn(value)` succeeds exactly for `""`, `w`, `b`, `wb`; `turn()` then reads `b` exactly when `b` was given; only the turn changes and the legality cache becomes unknown; otherwise `IllegalArgument("Position#turn()")` |
| Positions.CastleTarget | js/chess2.js:598-606 | a colour and side are accepted exactly when the side is `k` or `q` and the colour is found in `wb`, giving the colour's position in `wb` and column 0 for `k`, 7 for `q`; otherwise `IllegalArgument("Position#castleRights()")` |
| Positions.GetCastleRights | js/chess2.js:598-628 | reading a castle right fails, with `IllegalArgument("Position#castleRights()")`, exactly when the colour/side pair is rejected, and otherwise gives the bit of that colour's mask for the side's column |
| Positions.SetCastleRightAt | js/chess2.js:638-651 | after setting or clearing one bit, that bit reads the value given, every other colour/column bit reads as before, and only the castle rights and legality cache change |
| Positions.UpdateBit | js/chess2.js:642-645 | `mask \| bit` sets and `mask & ~bit` clears the chosen bit and keeps all the others |
| Positions.WithMask | js/chess2.js:642-645 | replacing one colour's mask leaves the other colour's mask as it was |
| Positions.SetCastleRights | js/chess2.js:598-651 | writing a castle right fails, with the `Position#castleRights()` illegal-argument exception, exactly when the colour/side pair is rejected; on success the legality cache is unknown |
| Positions.SetThenGetCastleRights | js/chess2.js:598-651 | after a successful write, reading the same colour and side gives the value written, every other accepted pair reads as before, and board, turn and en-passant are untouched |
| Positions.KingsideTokenIsFenQueenside | js/chess2.js:598-651 | granting white side `k` on a position without rights makes the FEN castle field `Q`, and side `q` makes it `K` |
| Positions.GetEnPassant | js/chess2.js:676-678 | `enPassant()` is `-` exactly when there is no en-passant file, otherwise the file letter |
| Positions.SetEnPassant | js/chess2.js:659-701 | `enPassant(value)` succeeds exactly for `-` or a text found in `abcdefgh`; only the file and the legality cache change; the getter then returns `-` or the letter at the position found; otherwise `IllegalArgument("Position#enPassant()")` |
| Positions.SetThenGetEnPassant | js/chess2.js:659-701 | setting a file letter a–h succeeds and the getter returns that letter |
| FenCodec.EncodeCells | js/chess2.js:302-318 | run-length encoding a row segment gives piece letters and digits 1–8 only, covering exactly the squares given and never two digits in a row |
| FenCodec.EncodeRankFrom | js/chess2.js:302-318 | the encoded rest of a row, with a pending run, covers exactly the remaining squares plus the run |
| FenCodec.EncodeRank | js/chess2.js:298-319 | each board sub-field uses only `KkQqRrBbNnPp` and `1`–`8`, has no adjacent digits and covers exactly eight squares |
| FenCodec.EnPassantField | js/chess2.js:323-328 | `-` exactly without an en-passant file, otherwise the file letter and `6` when white is to move, `3` when black is |
| FenCodec.BoardFieldRoundTrip | js/chess2.js:298-398 | the board field splits back into its eight sub-fields, and scanning them onto an empty board rebuilds the board |
| FenCodec.EncodedRanksParse | js/chess2.js:366-398 | scanning the encoder's sub-fields for rows r down to 0 rebuilds those rows |
| FenCodec.EmptyBoardIsEmpty | js/chess2.js:174-186 | the board `clear()` installs is well formed and every square is empty |
| FenCodec.FenFields | js/chess2.js:293-335 | `_getFEN` writes six fields, each non-empty and holding no whitespace |
| FenCodec.GetFen | js/chess2.js:293-335 | trimming the text and splitting it on whitespace runs, as `_setFEN` does, gives back exactly the six fields |
| FenCodec.ParseRankFrom | js/chess2.js:366-397 | a sub-field scan fails only with an unexpected character or an unexpected end naming that sub-field, and on success leaves every square of other rows, and every square of its own row left of the start column, as it was |
| FenCodec.ParseRanks | js/chess2.js:366-398 | the board scan fails only with one of the two board failures |
| FenCodec.ParseEnPassant | js/chess2.js:413-422 | the field is accepted exactly when it is `-` or `[a-h][36]` with, in strict mode, row 6 for white to move and row 3 for black; only the file is kept |
| FenCodec.DecodeFields | js/chess2.js:361-432 | after the field counts, a failure is never one of the two count failures; a decoded position has an unknown legality flag, king cache `[-1, -1]` and castle bits only at 0 and 7 |
| FenCodec.DecodeMeta | js/chess2.js:400-432 | the turn-to-counters stage fails only with a turn, castle, en-passant or counter failure; on success it keeps the board, black is to move exactly when the turn field is `b`, the rights are what the castle field decodes to, and the en-passant file and counters are those of their fields |
| FenCodec.DecodeTail | js/chess2.js:412-432 | the en-passant and counter stage fails only with an en-passant or counter failure, and on success keeps board, turn and rights as given, takes the en-passant file from the field's letter (or none for `-`) and the counters from the values of their digit strings |
| FenCodec.DecodeFen | js/chess2.js:346-433 | a failure carries the trimmed text; wrong field count exactly when there are not six fields; wrong sub-field count exactly when there are six fields but not eight sub-fields; a decoded position has an unknown legality flag and no king cache |
| FenCodec.FenRoundTrip | js/chess2.js:293-433 | decoding what `_getFEN` wrote, in either mode, succeeds and gives back the board, turn, castle bits 0 and 7, en-passant file and both counters |
| FenGrammar.RankAcceptance | js/chess2.js:366-397 | a sub-field scan succeeds exactly when every character is a digit 1–8 or piece letter and the squares covered add up to exactly eight (so `p8`, `8p`, `71p` fail) |
| FenGrammar.RankTextsFromAll | js/chess2.js:366-398 | the recursive description of the remaining sub-fields holds exactly when each of them is a rank text |
| FenGrammar.RanksAcceptance | js/chess2.js:366-398 | scanning the sub-fields for rows r down to 0 succeeds exactly when each is a rank text |
| FenGrammar.TailAcceptance | js/chess2.js:412-432 | the en-passant and counter stage succeeds exactly when those three fields are in their grammars |
| FenGrammar.MetaAcceptance | js/chess2.js:400-432 | the turn-to-counters stage succeeds exactly when those five fields are in their grammars |
| FenGrammar.DecodeFenAcceptance | js/chess2.js:346-433 | `_setFEN` accepts a text exactly when it is a valid FEN in the chosen mode |
| FenGrammar.MetaFailureOrder | js/chess2.js:400-431 | the failure reported belongs to the first of turn, castle rights, en-passant format, en-passant row, fifth and sixth field that breaks its grammar |
| FenGrammar.RankFailure | js/chess2.js:370-397 | a rejected sub-field reports the first character that is neither a digit 1–8 nor a piece letter and is reached before eight squares are covered; when there is none, it reports an unexpected end of that sub-field |
| FenGrammar.RanksFailure | js/chess2.js:366-398 | the board scan, rank 8 first, fails on the first sub-field that is not a rank text, with the failure that sub-field's own scan reports |
| FenGrammar.BoardFailureIs | js/chess2.js:346-398 | with six fields and eight sub-fields, `_setFEN` reports the stopping character of the first sub-field that is not a rank text, or else an unexpected end of that sub-field |
| FenGrammar.RankExpansion | js/chess2.js:370-397 | scanning a rank text onto a row empty from the start column succeeds and fills the row with the text's expansion: each run length becomes that many empty squares and each piece letter its coloured piece |
| FenGrammar.RanksExpansion | js/chess2.js:366-398 | scanning eight rank texts, rank 8 first, onto an empty board sets every row to the expansion of the sub-field describing it |
| FenGrammar.DecodedContents | js/chess2.js:346-433 | what `_setFEN` builds from any accepted text: each row is the expansion of its sub-field, black is to move exactly for turn `b`, the rights are what the castle field decodes to, and the en-passant file and counters come from their fields |
| FenGrammar.BoardFailureOrder | js/chess2.js:355-398 | with six fields and eight sub-fields, a board failure is reported exactly when the board field is not in its grammar |
| FenGrammar.DecodeFenFailureOrder | js/chess2.js:346-431 | with a valid board field, `_setFEN` reports the failure of the first later field, in text order, that breaks its grammar |
| FenGrammar.FailureAfterBoard | js/chess2.js:361-431 | once the board field scans, `_setFEN` fails exactly when the turn-to-counters stage does, with the same failure |
| FenGrammar.StrictMetaIsLenient | js/chess2.js:407-431 | whatever the strict turn-to-counters stage accepts, the lenient one decodes identically |
| FenGrammar.StrictTailIsLenient | js/chess2.js:413-431 | whatever the strict en-passant and counter stage accepts, the lenient one decodes identically |
| FenGrammar.StrictIsLenient | js/chess2.js:346-433 | strict mode only narrows the language: a text it accepts decodes to the same position and counters in lenient mode |
| StandardFens.EmptyRank | js/chess2.js:302-318 | a row of empty squares is written `8` |
| StandardFens.PiecesEncode | js/chess2.js:302-318 | a row segment without empty squares is written as its piece letters |
| StandardFens.EmptyCellsEncode | js/chess2.js:302-318 | a run of empty squares is written as one digit |
| StandardFens.EmptyBoardField | js/chess2.js:298-319 | an empty board's field is `8/8/8/8/8/8/8/8` |
| StandardFens.EmptyPositionFields | js/chess2.js:293-335 | an empty board with white to move and no rights is written as the fields `8/8/8/8/8/8/8/8`, `w`, `-`, `-` and the counters |
| StandardFens.EmptyFen | js/chess2.js:293-335 | such a position with counters 0 and 1 is written `8/8/8/8/8/8/8/8 w - - 0 1` |
| StandardFens.ClearedFields | js/chess2.js:171-197 | after `clear()` the six fields are `8/8/8/8/8/8/8/8`, `w`, `-`, `-` and the counters |
| StandardFens.ClearedFen | js/chess2.js:171-197 | after `clear()`, `fen()` returns `8/8/8/8/8/8/8/8 w - - 0 1` |
| StandardFens.StartRanks | js/chess2.js:298-319 | the starting board's rows are written `RNBQKBNR`, `PPPPPPPP`, four times `8`, `pppppppp` and `rnbqkbnr` |
| StandardFens.StartRankFields | js/chess2.js:298-319 | the starting board's sub-fields, rank 8 first, are `rnbqkbnr`, `pppppppp`, `8`, `8`, `8`, `8`, `PPPPPPPP`, `RNBQKBNR` |
| StandardFens.StartPositionFields | js/chess2.js:293-335 | a starting board with white to move, all rights and no en-passant file is written as its board field, `w`, `KQkq`, `-` and the counters |
| StandardFens.StartMetaFen | js/chess2.js:322-331 | white to move, all rights and no en-passant file give `fen()` the board field followed by ` w KQkq - 0 1` |
| StandardFens.ResetIsStartBoard | js/chess2.js:203-219 | after `reset()` the board is the starting board |
| StandardFens.ResetFields | js/chess2.js:203-229 | after `reset()` the six fields are the board field, `w`, `KQkq`, `-` and the counters |
| StandardFens.StartBoardField | js/chess2.js:298-319 | the starting board's field is `rnbqkbnr/pppppppp/8/8/8/8/PPPPPPPP/RNBQKBNR` |
| StandardFens.StartFen | js/chess2.js:293-335 | a starting board with white to move, all rights and no en-passant file, with counters 0 and 1, is written `rnbqkbnr/pppppppp/8/8/8/8/PPPPPPPP/RNBQKBNR w KQkq - 0 1` |
| StandardFens.ResetFen | js/chess2.js:203-229 | after `reset()`, `fen()` returns `rnbqkbnr/pppppppp/8/8/8/8/PPPPPPPP/RNBQKBNR w KQkq - 0 1` |
| CanonicalFen.CanonicalRankParses | js/chess2.js:302-397 | a canonical rank text scanned onto an empty row is written back by the encoder as the same text |
| CanonicalFen.CanonicalRanksParse | js/chess2.js:298-398 | eight canonical rank texts scanned onto an empty board give a board each of whose rows the encoder writes as its text |
| CanonicalFen.CanonicalRoundTrip | js/chess2.js:293-433 | a text of six single-space-separated fields in the form `_getFEN` writes them decodes, in either mode, and `_getFEN` of the decoded position and counters gives the same text: with EncoderIsCanonical, the encoder's image is exactly the canonical texts |
| CanonicalFen.EncoderIsCanonical | js/chess2.js:293-335 | the six fields `_getFEN` writes, for any position and counters, are in canonical form |
| PositionApi.SetFen | js/chess2.js:346-433 | `_setFEN` replaces the position exactly when the text is a valid FEN in the chosen mode, with the position and counters the decoder builds from it, giving unknown legality, no king cache and castle bits only at 0 and 7; a rejection carries the decoder's failure and the trimmed text and keeps the old position exactly for the two field-count failures |
| PositionApi.SetFenForgetsOldPosition | js/chess2.js:361-363 | a successful `_setFEN` loads the same position whatever was there before |
| PositionApi.SetFenOfGetFen | js/chess2.js:293-433 | loading what `_getFEN` wrote, into any position and in either mode, restores the written position and counters |
| PositionApi.Fen | js/chess2.js:266-285 | `fen()` is a getter exactly with no argument or an options object, a setter with one string (lenient) or a string and a boolean (that mode), and throws `IllegalArgument("Position#fen()")` otherwise; a setter call loads exactly the valid FEN texts |
| PositionApi.DefaultCounters | js/chess2.js:268-274 | an options object without numeric counters writes the same text as no argument |
| PositionApi.FenGetThenSet | js/chess2.js:266-285 | feeding the getter's text to the setter, in either mode and into any position, restores the position and reports the counters the getter wrote |
| PositionApi.ReloadIsIdentity | js/chess2.js:293-433 | a loaded position, written out and loaded again, is unchanged |
| PositionApi.NormalizedIsStable | js/chess2.js:361-363 | a decoded position already has the form a FEN round trip produces |
| PositionApi.PositionFromFen | js/chess2.js:162-164 | the constructor's FEN path succeeds exactly for lenient-valid FEN, building the position the lenient decoder builds, with unknown legality and no king cache, and otherwise throws the decoder's failure with the trimmed text |
| PositionApi.NewPosition | js/chess2.js:155-165 | no argument or `start` builds the `reset()` position, `empty` the `clear()` position, and any other text is read as lenient FEN |
| PositionApi.NewPositionOfGetFen | js/chess2.js:155-165 | constructing from a text `_getFEN` wrote rebuilds the position the text describes |
| PositionApi.FenTextIsNotAName | js/chess2.js:155-165 | a text `_getFEN` wrote is never `start` or `empty` |
| Diagram.SquareChar | js/chess2.js:245 | a square is drawn as a blank exactly when it is empty |
| Diagram.EnPassantText | js/chess2.js:254 | the en-passant part of the diagram is one character: `-` exactly without an en-passant file, otherwise the file letter |
| Diagram.EnPassantTextInjective | js/chess2.js:254 | different en-passant files are drawn differently |
| Diagram.SquareCharInjective | js/chess2.js:245 | different square contents are drawn with different characters |
| Diagram.CellsTextLayout | js/chess2.js:243-246 | a drawn row is four characters per square, the square's letter third |
| Diagram.RanksTextLayout | js/chess2.js:242-249 | each drawn row, with its separator line, takes 68 characters and shows each square at a fixed offset |
| Diagram.Ascii | js/chess2.js:238-258 | the diagram shows square (row, column) at offset `34 + 68 * (7 - row) + 4 * column + 2` (34 being the length of the top separator line) and ends with the meta-data line after the 17 board lines |
| Diagram.AsciiDeterminesPosition | js/chess2.js:238-258 | two positions with the same diagram have the same board, side to move, FEN castle bits and en-passant file |
| Diagram.MetaLineDeterminesMeta | js/chess2.js:252-254 | the meta-data line determines the side to move, the FEN castle bits and the en-passant file |
| Diagram.MetaParts | js/chess2.js:252-254 | a line of a character, a word and a one-character tail, separated by spaces, splits back uniquely |

## Left out

- Message texts: the i18n catalogue, the ordinal words and the `{n}` template substitution of `InvalidFEN` are presentation. A failure is a tagged `FenFailure` carrying the character or the sub-field index.
- PositionApi.SetFen: after a failure past the two field-count checks, chess2.js leaves a partly rewritten position (cleared board, some rows filled, possibly turn -1 or castle rights `null`); the model reports `kept = None` instead of describing that state, which callers must discard.
- JavaScript dispatch on `typeof`: the argument shapes of `fen()`, `square()`, `turn()`, `castleRights()` and `enPassant()` are datatypes (`FenArgs`, `SquareValue`, `string`, `bool`). Arguments of other types, and `fen(null)` (a `TypeError` in chess2.js), are not representable.
- Move counters are `nat`: negative or fractional numbers passed to the `fen()` getter are not modelled.
- Strings.NatToString: writes every `nat` as its decimal numeral, whereas JavaScript's number-to-string conversion at js/chess2.js:331 writes numbers of 10^21 or more in exponent form (`1e+21`), which the counter check at js/chess2.js:425-427 then rejects, and a JavaScript number holds integers above 2^53 only approximately (so does `parseInt` at js/chess2.js:432). The round-trip lemmas FenCodec.FenRoundTrip, PositionApi.SetFenOfGetFen, PositionApi.FenGetThenSet, PositionApi.ReloadIsIdentity, PositionApi.NewPositionOfGetFen and CanonicalFen.EncoderIsCanonical therefore describe chess2.js only for counters below 2^53.
- Whitespace: JavaScript's `\s` in the trimming and splitting regular expressions follows the engine's Unicode tables; the model uses a fixed list of the same code points.
- Strings are sequences of characters; UTF-16 surrogate pairs are not distinguished.
- The legality and king caches are carried but never recomputed, as in chess2.js; move generation and legality checking are not part of the file.
- `models/shortcodefen.php` and `models/adminpagehelp.php` are WordPress glue and are not part of this model.
