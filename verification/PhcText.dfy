/** The text pieces of the PHC string format: splitting and joining, identifiers, values and
    decimals (phc/src/ident.rs, phc/src/value.rs). */
module PhcText {
  import opened Bits
  import opened Decimals
  import opened Wrappers
  import Codec

  datatype Order = Less | Greater

  datatype PhcError =
    | Base64(error: Codec.Error)
    | MissingField
    | OutputSize(provided: Order, expected: nat)
    | ParamNameDuplicated
    | ParamNameInvalid
    | ParamValueInvalid
    | ParamValueTooLong
    | ParamsMaxExceeded
    | SaltTooLong
    | SaltTooShort
    | TrailingData

  // ----- splitting and joining -----

  /** The text up to the first separator. */
  function Before(s: bytes, sep: u8): (piece: bytes)
    ensures piece <= s && sep !in piece
    ensures if sep in s then |piece| < |s| && s[|piece|] == sep else piece == s
  {
    if s == [] || s[0] == sep then [] else [s[0]] + Before(s[1..], sep)
  }

  /** The text after the first separator, if there is one. */
  function After(s: bytes, sep: u8): (rest: Option<bytes>)
    ensures rest.Some? <==> sep in s
    ensures rest.Some? ==> |rest.value| < |s|
  {
    if sep in s then Some(s[|Before(s, sep)| + 1..]) else None
  }

  /** `str::split`: at least one piece. */
  function Split(s: bytes, sep: u8): (pieces: seq<bytes>)
    ensures pieces != []
    decreases |s|
  {
    match After(s, sep)
    case None => [s]
    case Some(rest) => [Before(s, sep)] + Split(rest, sep)
  }

  function Join(pieces: seq<bytes>, sep: u8): bytes {
    if pieces == [] then []
    else if |pieces| == 1 then pieces[0]
    else pieces[0] + [sep] + Join(pieces[1..], sep)
  }

  ghost predicate Free(pieces: seq<bytes>, sep: u8) {
    forall i :: 0 <= i < |pieces| ==> sep !in pieces[i]
  }

  /** The first piece of a text that starts with it. */
  lemma {:induction false} FirstPiece(piece: bytes, sep: u8, rest: bytes)
    requires sep !in piece
    ensures Before(piece + [sep] + rest, sep) == piece && After(piece + [sep] + rest, sep) == Some(rest)
    decreases |piece|
  {
    var s := piece + [sep] + rest;
    assert s[|piece|] == sep;
    if piece != [] {
      assert s[1..] == piece[1..] + [sep] + rest;
      FirstPiece(piece[1..], sep, rest);
      assert piece == [piece[0]] + piece[1..];
    }
    assert s[|piece| + 1..] == rest;
  }

  lemma {:induction false} SplitsJoined(pieces: seq<bytes>, sep: u8)
    requires pieces != [] && Free(pieces, sep)
    ensures Split(Join(pieces, sep), sep) == pieces
  {
    hide Before, After;
    if |pieces| == 1 {
      assert Join(pieces, sep) == pieces[0] && sep !in pieces[0];
      assert pieces == [pieces[0]];
    } else {
      var rest := pieces[1..];
      FirstPiece(pieces[0], sep, Join(rest, sep));
      assert Free(rest, sep) by {
        forall i | 0 <= i < |rest| ensures sep !in rest[i] {
          assert rest[i] == pieces[i + 1];
        }
      }
      SplitsJoined(rest, sep);
      assert pieces == [pieces[0]] + rest;
    }
  }

  lemma {:induction false} JoinsSplit(s: bytes, sep: u8)
    ensures Join(Split(s, sep), sep) == s && Free(Split(s, sep), sep)
    decreases |s|
  {
    hide Before;
    match After(s, sep)
    case None =>
      assert Split(s, sep) == [s];
    case Some(rest) =>
      JoinsSplit(rest, sep);
      var first, others := Before(s, sep), Split(rest, sep);
      assert ([first] + others)[1..] == others;
      assert s == first + [sep] + rest;
  }

  /** What is in the joined text. */
  lemma {:induction false} JoinContains(pieces: seq<bytes>, sep: u8, c: u8)
    requires c != sep && Free(pieces, c)
    ensures c !in Join(pieces, sep)
  {
    if |pieces| > 1 {
      assert Free(pieces[1..], c) by {
        forall i | 0 <= i < |pieces[1..]| ensures c !in pieces[1..][i] {
          assert pieces[1..][i] == pieces[i + 1];
        }
      }
      JoinContains(pieces[1..], sep, c);
    }
  }

  /** `str::Split` as an iterator: the text that has not been split, until the last piece is out. */
  class Pieces {
    const sep: u8
    var rest: Option<bytes>

    /** The pieces that have not been returned. */
    ghost function Remaining(): seq<bytes>
      reads this
    {
      match rest case None => [] case Some(s) => Split(s, sep)
    }

    constructor (s: bytes, sep: u8)
      ensures Remaining() == Split(s, sep) && this.sep == sep
    {
      this.rest, this.sep := Some(s), sep;
    }

    /** An iterator without pieces. */
    constructor Empty(sep: u8)
      ensures Remaining() == [] && this.sep == sep
    {
      this.rest, this.sep := None, sep;
    }

    method Next() returns (piece: Option<bytes>)
      modifies this
      ensures if old(Remaining()) == [] then piece == None && Remaining() == []
              else piece == Some(old(Remaining())[0]) && Remaining() == old(Remaining())[1..]
    {
      hide Before, After;
      match rest {
        case None => piece := None;
        case Some(s) =>
          piece := Some(Before(s, sep));
          rest := After(s, sep);
      }
    }
  }

  // ----- identifiers, values, decimals -----

  const DOLLAR: u8 := 36
  const COMMA: u8 := 44
  const MINUS: u8 := 45
  const EQUALS: u8 := 61

  const IDENT_MAX_LENGTH: nat := 32
  const VALUE_MAX_LENGTH: nat := 64
  const MAX_DECIMAL: nat := 0xFFFF_FFFF

  predicate IsLower(c: u8) {
    97 <= c <= 122
  }

  predicate IsUpper(c: u8) {
    65 <= c <= 90
  }

  predicate IsIdentChar(c: u8) {
    IsLower(c) || IsDigit(c) || c == MINUS
  }

  /** Letters, digits, `/`, `+`, `.` and `-`. */
  predicate IsValueChar(c: u8) {
    IsUpper(c) || IsLower(c) || IsDigit(c) || c == 47 || c == 43 || c == 46 || c == MINUS
  }

  predicate IsIdent(s: bytes) {
    1 <= |s| <= IDENT_MAX_LENGTH && forall i :: 0 <= i < |s| ==> IsIdentChar(s[i])
  }

  predicate IsValue(s: bytes) {
    |s| <= VALUE_MAX_LENGTH && forall i :: 0 <= i < |s| ==> IsValueChar(s[i])
  }

  /** Identifiers, values and separators in characters. */
  lemma AllowedCharacters(s: bytes)
    ensures IsIdent(s) <==>
            1 <= |s| <= 32 &&
            forall i :: 0 <= i < |s| ==>
              'a' as int <= s[i] <= 'z' as int || '0' as int <= s[i] <= '9' as int || s[i] == '-' as int
    ensures IsValue(s) <==>
            |s| <= 64 &&
            forall i :: 0 <= i < |s| ==>
              'A' as int <= s[i] <= 'Z' as int || 'a' as int <= s[i] <= 'z' as int ||
              '0' as int <= s[i] <= '9' as int || s[i] in Ascii("/+.-")
    ensures [DOLLAR] == Ascii("$") && [COMMA] == Ascii(",") && [EQUALS] == Ascii("=")
  {
    assert Ascii("/+.-") == [47, 43, 46, MINUS];
  }

  /** `Ident::new`. */
  method NewIdent(s: bytes) returns (r: Result<bytes, PhcError>)
    ensures r == if IsIdent(s) then Ok(s) else Err(ParamNameInvalid)
  {
    if !(1 <= |s| <= IDENT_MAX_LENGTH) {
      return Err(ParamNameInvalid);
    }
    var i := 0;
    while i < |s|
      invariant i <= |s| && forall j :: 0 <= j < i ==> IsIdentChar(s[j])
    {
      if !IsIdentChar(s[i]) {
        return Err(ParamNameInvalid);
      }
      i := i + 1;
    }
    r := Ok(s);
  }

  /** `Value::new`. */
  method NewValue(s: bytes) returns (r: Result<bytes, PhcError>)
    ensures r == if IsValue(s) then Ok(s)
                 else if |s| > VALUE_MAX_LENGTH then Err(ParamValueTooLong)
                 else Err(ParamValueInvalid)
  {
    if |s| > VALUE_MAX_LENGTH {
      return Err(ParamValueTooLong);
    }
    for i := 0 to |s|
      invariant forall j :: 0 <= j < i ==> IsValueChar(s[j])
    {
      if !IsValueChar(s[i]) {
        return Err(ParamValueInvalid);
      }
    }
    r := Ok(s);
  }

  /** The number that a value denotes as a decimal. */
  function DecimalOf(s: bytes): Option<u32> {
    if s == [] || !AllDigits(s) || (s[0] == ZERO && |s| > 1) then None
    else if Value(s) > MAX_DECIMAL then None
    else Some(Value(s))
  }

  /** `Value::decimal`. */
  method ParseDecimal(s: bytes) returns (r: Result<u32, PhcError>)
    ensures r == match DecimalOf(s) case Some(n) => Ok(n) case None => Err(ParamValueInvalid)
  {
    if s == [] {
      return Err(ParamValueInvalid);
    }
    for i := 0 to |s|
      invariant forall j :: 0 <= j < i ==> IsDigit(s[j])
    {
      if !IsDigit(s[i]) {
        return Err(ParamValueInvalid);
      }
    }
    if s[0] == ZERO && |s| > 1 {
      return Err(ParamValueInvalid);
    }
    // u32::from_str
    var n := 0;
    assert s[..|s|] == s;
    for i := 0 to |s|
      invariant AllDigits(s[..i]) && n == Value(s[..i]) <= MAX_DECIMAL
    {
      assert s[..i + 1] == s[..i] + [s[i]];
      ValueAppend(s[..i], s[i]);
      if n * 10 + (s[i] - ZERO) > MAX_DECIMAL {
        ValueOfPrefix(s, i + 1);
        return Err(ParamValueInvalid);
      }
      n := n * 10 + (s[i] - ZERO);
    }
    r := Ok(n);
  }

  /** Decimals and the digits of their numbers determine each other. */
  lemma DecimalsAreDigits(s: bytes, n: u32)
    ensures DecimalOf(s) == Some(n) <==> s == Digits(n)
  {
    hide Digits, Value;
    ValueOfDigits(n);
    if DecimalOf(s) == Some(n) {
      DigitsOfValue(s);
    }
  }

  lemma {:induction false} DigitsLength(n: nat, k: nat)
    requires k > 0 && n < Pow10(k)
    ensures |Digits(n)| <= k
    decreases k
  {
    if n >= 10 {
      DigitsLength(n / 10, k - 1);
    }
  }

  function Pow10(k: nat): (p: int)
    ensures p > 0
  {
    if k == 0 then 1 else 10 * Pow10(k - 1)
  }

  /** The digits of a 32-bit number are a value. */
  lemma DigitsAreValue(n: u32)
    ensures IsValue(Digits(n)) && |Digits(n)| <= 10
  {
    hide Digits;
    assert Pow10(3) == 1000 && Pow10(6) == 1000_000 && Pow10(9) == 1000_000_000 && Pow10(10) == 10_000_000_000;
    DigitsLength(n, 10);
  }
}
