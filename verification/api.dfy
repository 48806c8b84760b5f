/**
  The public entry points around the FEN codec: the `Position` constructor, the overloaded
  `fen()` method, and `_setFEN` as a state change. A successful `_setFEN` replaces the whole
  position; a rejected one throws `InvalidFEN`, leaving the position untouched only when the
  field counts were wrong.
 */
module PositionApi {
  import opened Results
  import opened Strings
  import opened Board
  import opened Castling
  import opened Positions
  import opened FenCodec
  import opened FenGrammar

  // ---------------------------------------------------------------------------
  // _setFEN as a state change
  // ---------------------------------------------------------------------------

  /**
    What `_setFEN` leaves behind. `Loaded` carries the new position and the counters the
    method returns. `Rejected` carries the exception and, in `kept`, the position when the
    method threw before touching it; after a later failure the position is partly rewritten
    and `kept` is `None`.
   */
  datatype SetFenOutcome =
    | Loaded(position: Position, counters: Counters)
    | Rejected(error: InvalidFen, kept: Option<Position>)

  /** The two failures `_setFEN` detects before it clears the position. */
  predicate IsEarlyFailure(f: FenFailure) {
    f == WrongNumberOfFenFields || f == WrongNumberOfSubfieldsInBoardField
  }

  /** `p._setFEN(fen, strict)`. */
  function SetFen(p: Position, fen: string, strict: bool): (o: SetFenOutcome)
    ensures o.Loaded? <==> IsValidFen(fen, strict)
    ensures o.Loaded? ==> o.position.legal == Unknown && o.position.kings == NO_KINGS
    ensures o.Loaded? ==> FenBits(o.position.castleRights) == o.position.castleRights
    ensures o.Rejected? ==> o.error.fen == Trim(fen)
    ensures o.Rejected? ==> (o.kept.Some? <==> IsEarlyFailure(o.error.failure))
    ensures o.Rejected? && o.kept.Some? ==> o.kept.value == p
    ensures o.Loaded? ==> DecodeFen(fen, strict) == Success(Decoded(o.position, o.counters))
    ensures o.Rejected? ==> DecodeFen(fen, strict) == Failure(o.error)
  {
    DecodeFenAcceptance(fen, strict);
    match DecodeFen(fen, strict)
    case Success(d) => Loaded(d.position, d.counters)
    case Failure(e) => Rejected(e, if IsEarlyFailure(e.failure) then Some(p) else None)
  }

  /** A successful `_setFEN` clears the position first: what it loads does not depend on what was there. */
  lemma SetFenForgetsOldPosition(p: Position, q: Position, fen: string, strict: bool)
    requires SetFen(p, fen, strict).Loaded?
    ensures SetFen(q, fen, strict) == SetFen(p, fen, strict)
  {
  }

  /** Loading what `_getFEN` wrote, into any position, restores the written position and counters. */
  lemma SetFenOfGetFen(p: Position, q: Position, fiftyMoveClock: nat, fullMoveNumber: nat, strict: bool)
    ensures SetFen(q, GetFen(p, fiftyMoveClock, fullMoveNumber), strict)
      == Loaded(Normalized(p), Counters(fiftyMoveClock, fullMoveNumber))
  {
    FenRoundTrip(p, fiftyMoveClock, fullMoveNumber, strict);
  }

  // ---------------------------------------------------------------------------
  // fen()
  // ---------------------------------------------------------------------------

  /**
    The argument lists `fen()` tells apart: none; one object, whose two counters are used
    when they are numbers; one string; a string and a boolean (further arguments ignored);
    anything else.
   */
  datatype FenArgs =
    | NoArguments
    | CounterOptions(fiftyMoveClock: Option<nat>, fullMoveNumber: Option<nat>)
    | FenText(text: string)
    | FenTextAndMode(text: string, strict: bool)
    | OtherArguments

  /** The getter's text, the setter's outcome, or the `IllegalArgument` exception. */
  datatype FenResult =
    | FenString(text: string)
    | FenSet(outcome: SetFenOutcome)
    | FenIllegal(error: IllegalArgument)

  function CounterOr(value: Option<nat>, default: nat): nat {
    match value
    case Some(n) => n
    case None => default
  }

  /** `p.fen(...)`: a getter with counters 0 and 1 unless given, a lenient setter unless a mode is given. */
  function Fen(p: Position, args: FenArgs): (r: FenResult)
    ensures r.FenIllegal? <==> args.OtherArguments?
    ensures r.FenIllegal? ==> r.error == IllegalArgument("Position#fen()")
    ensures r.FenString? <==> args.NoArguments? || args.CounterOptions?
    ensures args.FenText? ==> r.FenSet? && (r.outcome.Loaded? <==> IsValidFen(args.text, false))
    ensures args.FenTextAndMode? ==> r.FenSet? && (r.outcome.Loaded? <==> IsValidFen(args.text, args.strict))
  {
    match args
    case NoArguments => FenString(GetFen(p, 0, 1))
    case CounterOptions(fiftyMoveClock, fullMoveNumber) =>
      FenString(GetFen(p, CounterOr(fiftyMoveClock, 0), CounterOr(fullMoveNumber, 1)))
    case FenText(text) => FenSet(SetFen(p, text, false))
    case FenTextAndMode(text, strict) => FenSet(SetFen(p, text, strict))
    case OtherArguments => FenIllegal(IllegalArgument("Position#fen()"))
  }

  /** An object without numeric counters reads like no argument at all. */
  lemma DefaultCounters(p: Position)
    ensures Fen(p, CounterOptions(None, None)) == Fen(p, NoArguments)
  {
  }

  /** The counters a getter call writes: the numeric ones it was given, 0 and 1 otherwise. */
  function CountersOf(options: FenArgs): Counters {
    match options
    case CounterOptions(fiftyMoveClock, fullMoveNumber) => Counters(CounterOr(fiftyMoveClock, 0), CounterOr(fullMoveNumber, 1))
    case _ => Counters(0, 1)
  }

  /**
    Feeding the getter's text back to the setter, in either mode and into any position,
    restores the position (up to what FEN cannot carry) and reports the counters the getter wrote.
   */
  lemma FenGetThenSet(p: Position, q: Position, options: FenArgs, strict: bool)
    requires options.NoArguments? || options.CounterOptions?
    ensures Fen(q, FenTextAndMode(Fen(p, options).text, strict)) == FenSet(Loaded(Normalized(p), CountersOf(options)))
  {
    var counters := CountersOf(options);
    assert Fen(p, options) == FenString(GetFen(p, counters.fiftyMoveClock, counters.fullMoveNumber));
    SetFenOfGetFen(p, q, counters.fiftyMoveClock, counters.fullMoveNumber, strict);
  }

  /** A loaded position, written out and loaded again, comes back unchanged: loading is idempotent. */
  lemma ReloadIsIdentity(p: Position, text: string, strict: bool)
    requires SetFen(p, text, strict).Loaded?
    ensures var loaded := SetFen(p, text, strict).position;
      SetFen(loaded, GetFen(loaded, 0, 1), false) == Loaded(loaded, Counters(0, 1))
  {
    var loaded := SetFen(p, text, strict).position;
    SetFenOfGetFen(loaded, loaded, 0, 1, false);
    NormalizedIsStable(loaded);
  }

  /** A decoded position is already in the form a FEN round trip produces. */
  lemma NormalizedIsStable(p: Position)
    requires p.legal == Unknown && p.kings == NO_KINGS && FenBits(p.castleRights) == p.castleRights
    ensures Normalized(p) == p
  {
  }

  // ---------------------------------------------------------------------------
  // The constructor
  // ---------------------------------------------------------------------------

  /** The constructor's FEN path: lenient `_setFEN` on a fresh object, which is dropped if it throws. */
  function PositionFromFen(text: string): (r: Result<Position, InvalidFen>)
    ensures r.Success? <==> IsValidFen(text, false)
    ensures r.Success? ==> r.value.legal == Unknown && r.value.kings == NO_KINGS
    ensures r.Failure? ==> r.error.fen == Trim(text)
    ensures r.Success? ==> DecodeFen(text, false).Success? && DecodeFen(text, false).value.position == r.value
    ensures r.Failure? ==> DecodeFen(text, false) == Failure(r.error)
  {
    DecodeFenAcceptance(text, false);
    match DecodeFen(text, false)
    case Success(d) => Success(d.position)
    case Failure(error) => Failure(error)
  }

  /** The two names the constructor accepts in place of a FEN text. */
  const START_NAME: string := "start"
  const EMPTY_NAME: string := "empty"

  /**
    `new Position(fen)`: `None` stands for an omitted or null argument. `start` and `empty`
    name the positions `reset()` and `clear()` install; any other text is read as lenient FEN.
   */
  function NewPosition(fen: Option<string>): (r: Result<Position, InvalidFen>)
    ensures fen == None || fen == Some(START_NAME) ==> r == Success(Reset())
    ensures fen == Some(EMPTY_NAME) ==> r == Success(Clear())
    ensures fen.Some? && fen.value != START_NAME && fen.value != EMPTY_NAME ==> r == PositionFromFen(fen.value)
  {
    match fen
    case None => Success(Reset())
    case Some(text) =>
      if text == START_NAME then Success(Reset())
      else if text == EMPTY_NAME then Success(Clear())
      else PositionFromFen(text)
  }

  /** Constructing from the text `_getFEN` wrote rebuilds the position the text describes. */
  lemma NewPositionOfGetFen(p: Position, fiftyMoveClock: nat, fullMoveNumber: nat)
    ensures NewPosition(Some(GetFen(p, fiftyMoveClock, fullMoveNumber))) == Success(Normalized(p))
  {
    var text := GetFen(p, fiftyMoveClock, fullMoveNumber);
    FenRoundTrip(p, fiftyMoveClock, fullMoveNumber, false);
    assert PositionFromFen(text) == Success(Normalized(p));
    FenTextIsNotAName(p, fiftyMoveClock, fullMoveNumber);
  }

  /** A text `_getFEN` wrote is never one of the constructor's two names: it is longer than either. */
  lemma FenTextIsNotAName(p: Position, fiftyMoveClock: nat, fullMoveNumber: nat)
    ensures GetFen(p, fiftyMoveClock, fullMoveNumber) != START_NAME && GetFen(p, fiftyMoveClock, fullMoveNumber) != EMPTY_NAME
  {
    JoinLength(FenFields(p, fiftyMoveClock, fullMoveNumber), ' ');
    assert |START_NAME| == 5 && |EMPTY_NAME| == 5;
  }
}
