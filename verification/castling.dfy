/**
  Castle rights: one bitmask per colour over the board's columns, where bit `c` set means
  the colour may still castle with the rook of column `c`. The FEN text form only speaks
  of columns 7 (`K`/`k`) and 0 (`Q`/`q`).
 */
module Castling {
  import opened Results
  import opened Strings
  import opened Board

  datatype CastleRights = CastleRights(white: bv8, black: bv8) {
    function Mask(color: Color): bv8 {
      if color == WHITE then white else black
    }
  }

  const NO_CASTLE_RIGHTS: CastleRights := CastleRights(0, 0)
  /** (1 << column a) | (1 << column h) for both colours. */
  const ALL_CASTLE_RIGHTS: CastleRights := CastleRights(129, 129)

  function Bit(column: Coord): bv8 {
    (1 as bv8) << column
  }

  predicate HasBit(mask: bv8, column: Coord) {
    mask & Bit(column) != 0
  }

  /** The part of the rights the FEN field can express: bits 0 and 7 of each mask. */
  function FenBits(cr: CastleRights): CastleRights {
    CastleRights(cr.white & 0x81, cr.black & 0x81)
  }

  // ---------------------------------------------------------------------------
  // The grammars of the FEN castle field
  // ---------------------------------------------------------------------------

  const CASTLE_LETTERS: string := "KQkq"

  /** `/^[KQkq]*$/`. */
  predicate IsLenientCastleText(s: string) {
    forall i :: 0 <= i < |s| ==> s[i] in CASTLE_LETTERS
  }

  /**
    `/^K?Q?k?q?$/` read from letter `n` of K, Q, k, q on: each letter optional, at most once,
    in that order. The letters are distinct, so taking a letter whenever it comes next is the
    only way to match.
   */
  predicate MatchesOptionalLetters(s: string, n: nat)
    decreases 4 - n
  {
    if n >= 4 then s == ""
    else if |s| > 0 && s[0] == CASTLE_LETTERS[n] then MatchesOptionalLetters(s[1..], n + 1)
    else MatchesOptionalLetters(s, n + 1)
  }

  predicate IsStrictCastleText(s: string) {
    MatchesOptionalLetters(s, 0)
  }

  /** The castle letters, in order, whose presence the four flags report. */
  function LettersWhere(hasK: bool, hasQ: bool, hask: bool, hasq: bool): (s: string)
    ensures s == "" <==> !hasK && !hasQ && !hask && !hasq
    ensures s != "-"
  {
    var s := (if hasK then "K" else "") + (if hasQ then "Q" else "") + (if hask then "k" else "") + (if hasq then "q" else "");
    assert |s| > 0 ==> s[0] != '-';
    s
  }

  /** A mask with bit 7 set iff `high` and bit 0 set iff `low`, and no other bit. */
  function MaskOf(high: bool, low: bool): (m: bv8)
    ensures HasBit(m, 7) == high && HasBit(m, 0) == low && m & 0x81 == m
  {
    (if high then Bit(7) else 0) | (if low then Bit(0) else 0)
  }

  // ---------------------------------------------------------------------------
  // Codec
  // ---------------------------------------------------------------------------

  /** `castleRightsToString`: `K`, `Q`, `k`, `q` for white bit 7, white bit 0, black bit 7, black bit 0, or `-`. */
  function ToString(cr: CastleRights): (s: string)
    ensures s == "-" <==> FenBits(cr) == NO_CASTLE_RIGHTS
    ensures s != "-" ==> IsStrictCastleText(s) && |s| > 0
    ensures s != "-" ==> ('K' in s <==> HasBit(cr.white, 7)) && ('Q' in s <==> HasBit(cr.white, 0))
    ensures s != "-" ==> ('k' in s <==> HasBit(cr.black, 7)) && ('q' in s <==> HasBit(cr.black, 0))
  {
    MaskFromBits(cr.white);
    MaskFromBits(cr.black);
    var res := LettersWhere(HasBit(cr.white, 7), HasBit(cr.white, 0), HasBit(cr.black, 7), HasBit(cr.black, 0));
    if res == "" then "-" else res
  }

  /** `castleRightsFromString`: `-`, or the strict or lenient letter grammar; letters set bits, repeats are harmless. */
  function FromString(s: string, strict: bool): (r: Option<CastleRights>)
    ensures r.Some? <==> s == "-" || (if strict then IsStrictCastleText(s) else IsLenientCastleText(s))
    ensures r.Some? ==> FenBits(r.value) == r.value
    ensures r.Some? ==> (HasBit(r.value.white, 7) <==> 'K' in s) && (HasBit(r.value.white, 0) <==> 'Q' in s)
    ensures r.Some? ==> (HasBit(r.value.black, 7) <==> 'k' in s) && (HasBit(r.value.black, 0) <==> 'q' in s)
  {
    if s == "-" then Some(NO_CASTLE_RIGHTS)
    else if !(if strict then IsStrictCastleText(s) else IsLenientCastleText(s)) then None
    else
      SubstringOfOne(s, 'K');
      SubstringOfOne(s, 'Q');
      SubstringOfOne(s, 'k');
      SubstringOfOne(s, 'q');
      Some(CastleRights(
        MaskOf(IndexOf(s, "K") >= 0, IndexOf(s, "Q") >= 0),
        MaskOf(IndexOf(s, "k") >= 0, IndexOf(s, "q") >= 0)))
  }

  /** A mask restricted to bits 0 and 7 is fixed by those two bits. */
  lemma MaskFromBits(m: bv8)
    ensures m & 0x81 == (if HasBit(m, 7) then Bit(7) else 0) | (if HasBit(m, 0) then Bit(0) else 0)
  {
  }

  /** Decoding the encoding of any rights gives back the bits the FEN field can express, in both modes. */
  lemma FromToString(cr: CastleRights, strict: bool)
    ensures FromString(ToString(cr), strict) == Some(FenBits(cr))
  {
    var s := ToString(cr);
    if s != "-" {
      MatchedLettersAreLate(s, 0);
    }
    var r := FromString(s, strict);
    assert r.Some?;
    SameFenBits(r.value.white, cr.white);
    SameFenBits(r.value.black, cr.black);
  }

  /** A mask restricted to bits 0 and 7 is the restriction of any mask that agrees with it on those bits. */
  lemma SameFenBits(a: bv8, b: bv8)
    requires a & 0x81 == a && HasBit(a, 7) == HasBit(b, 7) && HasBit(a, 0) == HasBit(b, 0)
    ensures a == b & 0x81
  {
    MaskFromBits(a);
    MaskFromBits(b);
  }

  /** Rights that use only bits 0 and 7 survive an encode/decode cycle unchanged. */
  lemma FromToStringExact(cr: CastleRights, strict: bool)
    requires FenBits(cr) == cr
    ensures FromString(ToString(cr), strict) == Some(cr)
  {
    FromToString(cr, strict);
  }

  /** The castle letters from letter `n` of K, Q, k, q on that occur in `s`, in order. */
  function LettersFrom(s: string, n: nat): string
    decreases 4 - n
  {
    if n >= 4 then "" else (if CASTLE_LETTERS[n] in s then [CASTLE_LETTERS[n]] else "") + LettersFrom(s, n + 1)
  }

  /** A text matching from letter `n` on only holds letters `n` and later. */
  lemma {:induction false} MatchedLettersAreLate(s: string, n: nat)
    requires MatchesOptionalLetters(s, n)
    ensures forall i :: 0 <= i < |s| ==> exists m :: n <= m < 4 && s[i] == CASTLE_LETTERS[m]
    decreases 4 - n
  {
    if n < 4 {
      if |s| > 0 && s[0] == CASTLE_LETTERS[n] {
        MatchedLettersAreLate(s[1..], n + 1);
        forall i | 0 <= i < |s|
          ensures exists m :: n <= m < 4 && s[i] == CASTLE_LETTERS[m]
        {
          if i > 0 {
            assert s[i] == s[1..][i - 1];
          }
        }
      } else {
        MatchedLettersAreLate(s, n + 1);
      }
    }
  }

  /** Dropping a letter that comes before letter `n` leaves the letters from `n` on unchanged. */
  lemma {:induction false} LettersFromTail(s: string, n: nat, m: nat)
    requires |s| > 0 && m < n && m < 4 && s[0] == CASTLE_LETTERS[m]
    ensures LettersFrom(s, n) == LettersFrom(s[1..], n)
    decreases 4 - n
  {
    if n < 4 {
      var L := CASTLE_LETTERS[n];
      assert s == [s[0]] + s[1..];
      assert L in s <==> L in s[1..];
      LettersFromTail(s, n + 1, m);
    }
  }

  /** A text matching from letter `n + 1` on holds no letter `n`. */
  lemma EarlierLetterAbsent(s: string, n: nat)
    requires n < 4 && MatchesOptionalLetters(s, n + 1)
    ensures CASTLE_LETTERS[n] !in s
  {
    MatchedLettersAreLate(s, n + 1);
    forall i | 0 <= i < |s|
      ensures s[i] != CASTLE_LETTERS[n]
    {
      var m :| n + 1 <= m < 4 && s[i] == CASTLE_LETTERS[m];
    }
  }

  /** A text matching from letter `n` on is the ordered list of the letters it holds. */
  lemma {:induction false} MatchedIsSortedLetters(s: string, n: nat)
    requires MatchesOptionalLetters(s, n)
    ensures s == LettersFrom(s, n)
    decreases 4 - n
  {
    if n < 4 {
      var L := CASTLE_LETTERS[n];
      if |s| > 0 && s[0] == L {
        MatchedIsSortedLetters(s[1..], n + 1);
        LettersFromTail(s, n + 1, n);
        assert s == [s[0]] + s[1..];
      } else {
        EarlierLetterAbsent(s, n);
        MatchedIsSortedLetters(s, n + 1);
      }
    }
  }

  /** Every non-empty strict castle text is exactly the encoding of the rights it decodes to. */
  lemma ToFromString(s: string)
    requires IsStrictCastleText(s) && s != ""
    ensures FromString(s, true).Some? && ToString(FromString(s, true).value) == s
  {
    StrictTextIsNotDash(s);
    var hasK, hasQ, hask, hasq := 'K' in s, 'Q' in s, 'k' in s, 'q' in s;
    EncodeDecodedLetters(s, hasK, hasQ, hask, hasq);
    StrictTextIsItsLetters(s, hasK, hasQ, hask, hasq);
  }

  lemma StrictTextIsItsLetters(s: string, hasK: bool, hasQ: bool, hask: bool, hasq: bool)
    requires IsStrictCastleText(s)
    requires hasK == ('K' in s) && hasQ == ('Q' in s) && hask == ('k' in s) && hasq == ('q' in s)
    ensures s == LettersWhere(hasK, hasQ, hask, hasq)
  {
    MatchedIsSortedLetters(s, 0);
    LettersFromStart(s);
  }

  /** The castle letters occurring in `s`, in order, are the letters the four presence flags select. */
  lemma LettersFromStart(s: string)
    ensures LettersFrom(s, 0) == LettersWhere('K' in s, 'Q' in s, 'k' in s, 'q' in s)
  {
  }

  lemma StrictTextIsNotDash(s: string)
    requires IsStrictCastleText(s) && s != ""
    ensures s != "-"
  {
    MatchedLettersAreLate(s, 0);
    var m :| 0 <= m < 4 && s[0] == CASTLE_LETTERS[m];
    assert s[0] != '-';
  }

  lemma EncodeDecodedLetters(s: string, hasK: bool, hasQ: bool, hask: bool, hasq: bool)
    requires IsStrictCastleText(s) && s != "-" && s != ""
    requires hasK == ('K' in s) && hasQ == ('Q' in s) && hask == ('k' in s) && hasq == ('q' in s)
    ensures FromString(s, true).Some?
    ensures ToString(FromString(s, true).value) == LettersWhere(hasK, hasQ, hask, hasq)
  {
    MatchedLettersAreLate(s, 0);
    var m :| 0 <= m < 4 && s[0] == CASTLE_LETTERS[m];
    assert hasK || hasQ || hask || hasq;
    var r := FromString(s, true).value;
    assert HasBit(r.white, 7) == hasK && HasBit(r.white, 0) == hasQ;
    assert HasBit(r.black, 7) == hask && HasBit(r.black, 0) == hasq;
  }

  /** In lenient mode the decoded rights depend only on which letters occur, not on order or repetition. */
  lemma LenientIgnoresOrderAndRepeats(s: string, t: string)
    requires IsLenientCastleText(s) && IsLenientCastleText(t)
    requires forall ch :: ch in s <==> ch in t
    ensures FromString(s, false) == FromString(t, false)
  {
    SubstringOfOne(s, 'K');
    SubstringOfOne(s, 'Q');
    SubstringOfOne(s, 'k');
    SubstringOfOne(s, 'q');
    SubstringOfOne(t, 'K');
    SubstringOfOne(t, 'Q');
    SubstringOfOne(t, 'k');
    SubstringOfOne(t, 'q');
  }

  /** Every text the strict grammar accepts, the lenient one accepts too, with the same rights. */
  lemma StrictCastleIsLenient(s: string)
    requires FromString(s, true).Some?
    ensures FromString(s, false) == FromString(s, true)
  {
    if s != "-" {
      MatchedLettersAreLate(s, 0);
      forall i | 0 <= i < |s|
        ensures s[i] in CASTLE_LETTERS
      {
        var m :| 0 <= m < 4 && s[i] == CASTLE_LETTERS[m];
      }
    }
  }
}
