/** Parameter strings: an ordered map of names to values kept as text in a buffer of fixed size
    (phc/src/params.rs, phc/src/string_buf.rs). */
module PhcParams {
  import opened Bits
  import opened Decimals
  import opened PhcText
  import opened Slices
  import opened Wrappers

  const PARAMS_MAX_LENGTH: nat := 127

  // ----- pairs and their text -----

  datatype Pair = Pair(name: bytes, value: bytes)

  predicate IsPair(p: Pair) {
    IsIdent(p.name) && IsValue(p.value)
  }

  predicate ArePairs(pairs: seq<Pair>) {
    forall i :: 0 <= i < |pairs| ==> IsPair(pairs[i])
  }

  function PairText(p: Pair): bytes {
    p.name + [EQUALS] + p.value
  }

  function PairTexts(pairs: seq<Pair>): (texts: seq<bytes>)
    ensures |texts| == |pairs| && forall i :: 0 <= i < |pairs| ==> texts[i] == PairText(pairs[i])
  {
    seq(|pairs|, i requires 0 <= i < |pairs| => PairText(pairs[i]))
  }

  /** `name=value` pairs, separated by commas. */
  function ParamsText(pairs: seq<Pair>): bytes {
    Join(PairTexts(pairs), COMMA)
  }

  function ParsePair(s: bytes): Result<Pair, PhcError> {
    var pieces := Split(s, EQUALS);
    if !IsIdent(pieces[0]) then Err(ParamNameInvalid)
    else if |pieces| == 1 then Err(ParamValueInvalid)
    else if |pieces[1]| > VALUE_MAX_LENGTH then Err(ParamValueTooLong)
    else if !IsValue(pieces[1]) || |pieces| > 2 then Err(ParamValueInvalid)
    else Ok(Pair(pieces[0], pieces[1]))
  }

  /** All pairs, or the error of the first piece that is none. */
  function ParseAll(pieces: seq<bytes>): (r: Result<seq<Pair>, PhcError>)
    ensures r.Ok? ==> |r.value| == |pieces|
  {
    if pieces == [] then Ok([])
    else
      match ParsePair(pieces[0])
      case Err(error) => Err(error)
      case Ok(p) =>
        match ParseAll(pieces[1..])
        case Err(error) => Err(error)
        case Ok(rest) => Ok([p] + rest)
  }

  /** The pairs that a text denotes. */
  function ParsePairs(s: bytes): Result<seq<Pair>, PhcError> {
    if s == [] then Ok([]) else ParseAll(Split(s, COMMA))
  }

  /** A pair and its text determine each other. */
  lemma PairsAreTexts(s: bytes, p: Pair)
    ensures ParsePair(s) == Ok(p) <==> IsPair(p) && PairText(p) == s
  {
    hide Split, Join, IsIdent;
    JoinsSplit(s, EQUALS);
    if ParsePair(s) == Ok(p) {
      JoinOfTwo(Split(s, EQUALS), EQUALS);
    }
    if IsPair(p) && PairText(p) == s {
      var pieces := [p.name, p.value];
      PlainText(p);
      assert Free(pieces, EQUALS);
      SplitsJoined(pieces, EQUALS);
      JoinOfTwo(pieces, EQUALS);
    }
  }

  lemma JoinOfTwo(pieces: seq<bytes>, sep: u8)
    requires |pieces| == 2
    ensures Join(pieces, sep) == pieces[0] + [sep] + pieces[1]
  {
    assert pieces[1..] == [pieces[1]];
  }

  /** Names and values do not contain the delimiters. */
  lemma PlainText(p: Pair)
    requires IsPair(p)
    ensures EQUALS !in p.name && EQUALS !in p.value && COMMA !in PairText(p) && DOLLAR !in PairText(p)
    ensures PairText(p) != []
  {
  }

  lemma {:induction false} AllPairsParse(pairs: seq<Pair>)
    requires ArePairs(pairs)
    ensures ParseAll(PairTexts(pairs)) == Ok(pairs)
  {
    hide ParsePair, IsPair, PairText;
    if pairs != [] {
      var texts := PairTexts(pairs);
      assert texts[1..] == PairTexts(pairs[1..]);
      PairsAreTexts(texts[0], pairs[0]);
      AllPairsParse(pairs[1..]);
      assert pairs == [pairs[0]] + pairs[1..];
    }
  }

  lemma {:induction false} ParsedAreTexts(pieces: seq<bytes>)
    requires ParseAll(pieces).Ok?
    ensures ArePairs(ParseAll(pieces).value) && PairTexts(ParseAll(pieces).value) == pieces
  {
    hide ParsePair, IsPair, PairText;
    if pieces != [] {
      var pairs := ParseAll(pieces).value;
      PairsAreTexts(pieces[0], pairs[0]);
      ParsedAreTexts(pieces[1..]);
      assert pairs[1..] == ParseAll(pieces[1..]).value;
      assert PairTexts(pairs)[0] == pieces[0] && PairTexts(pairs)[1..] == PairTexts(pairs[1..]) == pieces[1..];
    }
  }

  lemma TextsAreFree(pairs: seq<Pair>)
    requires ArePairs(pairs)
    ensures Free(PairTexts(pairs), COMMA) && Free(PairTexts(pairs), DOLLAR)
  {
    hide IsPair, PairText;
    forall i | 0 <= i < |pairs| ensures COMMA !in PairText(pairs[i]) && DOLLAR !in PairText(pairs[i]) {
      PlainText(pairs[i]);
    }
  }

  /** The text of pairs is not empty, unless there are none. */
  lemma TextIsEmpty(pairs: seq<Pair>)
    requires ArePairs(pairs)
    ensures ParamsText(pairs) == [] <==> pairs == []
  {
    hide IsPair, PairText;
    if pairs != [] {
      PlainText(pairs[0]);
      assert PairTexts(pairs)[0] != [];
    }
  }

  /** Parameter texts and lists of pairs determine each other. */
  lemma ParamsAreText(s: bytes, pairs: seq<Pair>)
    ensures ParsePairs(s) == Ok(pairs) <==> ArePairs(pairs) && ParamsText(pairs) == s
  {
    hide ParseAll, PairTexts, IsPair, Split, Join;
    JoinsSplit(s, COMMA);
    NoPairs();
    if ArePairs(pairs) {
      TextsAreFree(pairs);
      TextIsEmpty(pairs);
      if pairs != [] {
        SplitsJoined(PairTexts(pairs), COMMA);
        AllPairsParse(pairs);
      }
    }
    if s != [] && ParsePairs(s) == Ok(pairs) {
      ParsedAreTexts(Split(s, COMMA));
    }
  }

  lemma NoPairs()
    ensures ParamsText([]) == []
  {
  }

  /** The text of one more pair. */
  lemma TextOfOneMore(pairs: seq<Pair>, p: Pair)
    ensures ParamsText(pairs + [p]) == (if pairs == [] then [] else ParamsText(pairs) + [COMMA]) + PairText(p)
  {
    hide PairText;
    assert PairTexts(pairs + [p]) == PairTexts(pairs) + [PairText(p)];
    JoinAppend(PairTexts(pairs), COMMA, PairText(p));
  }

  /** The text of one more pair, in characters. */
  lemma PairInCharacters(pairs: seq<Pair>, p: Pair)
    ensures ParamsText([]) == []
    ensures ParamsText(pairs + [p]) ==
            (if pairs == [] then [] else ParamsText(pairs) + Ascii(",")) + (p.name + Ascii("=") + p.value)
  {
    hide ParamsText;
    NoPairs();
    TextOfOneMore(pairs, p);
    AllowedCharacters([]);
  }

  /** What is wrong with a text that is no pair: its name, or the absence of a value. */
  lemma WhyNoPair(s: bytes)
    ensures !IsIdent(Before(s, '=' as int)) ==> ParsePair(s) == Err(ParamNameInvalid)
    ensures IsIdent(Before(s, '=' as int)) && '=' as int !in s ==> ParsePair(s) == Err(ParamValueInvalid)
  {
    hide Before, IsIdent, IsValue, ParsePair;
    SplitByFirst(s);
    ParsePairCases(s);
  }

  /** What is wrong with a text behind a name: its length, its characters, or a second equals sign. */
  lemma WhyNoValue(name: bytes, value: bytes, more: bytes)
    requires IsIdent(name) && '=' as int !in value
    ensures ParsePair(name + Ascii("=") + value) ==
            if |value| > 64 then Err(ParamValueTooLong)
            else if !IsValue(value) then Err(ParamValueInvalid)
            else Ok(Pair(name, value))
    ensures ParsePair(name + Ascii("=") + (value + Ascii("=") + more)) ==
            if |value| > 64 then Err(ParamValueTooLong) else Err(ParamValueInvalid)
  {
    hide Before, IsIdent, IsValue, ParsePair, Split;
    assert Ascii("=") == [EQUALS];
    NoEquals(name);
    var rest := value + [EQUALS] + more;
    FirstPiece(name, EQUALS, value);
    FirstPiece(name, EQUALS, rest);
    FirstPiece(value, EQUALS, more);
    SplitByFirst(name + [EQUALS] + value);
    SplitByFirst(name + [EQUALS] + rest);
    SplitByFirst(value);
    SplitByFirst(rest);
    ParsePairCases(name + [EQUALS] + value);
    ParsePairCases(name + [EQUALS] + rest);
  }

  /** Of several wrong pieces, the first decides. */
  lemma {:induction false} FirstErrorDecides(pieces: seq<bytes>, i: nat)
    requires i < |pieces| && ParsePair(pieces[i]).Err?
    requires forall j :: 0 <= j < i ==> ParsePair(pieces[j]).Ok?
    ensures ParseAll(pieces) == Err(ParsePair(pieces[i]).error)
  {
    hide ParsePair;
    if i > 0 {
      FirstErrorDecides(pieces[1..], i - 1);
    }
  }

  lemma ParsePairCases(s: bytes)
    ensures var pieces := Split(s, EQUALS);
            ParsePair(s) ==
            if !IsIdent(pieces[0]) then Err(ParamNameInvalid)
            else if |pieces| == 1 then Err(ParamValueInvalid)
            else if |pieces[1]| > VALUE_MAX_LENGTH then Err(ParamValueTooLong)
            else if !IsValue(pieces[1]) || |pieces| > 2 then Err(ParamValueInvalid)
            else Ok(Pair(pieces[0], pieces[1]))
  {
  }

  lemma SplitByFirst(s: bytes)
    ensures Split(s, EQUALS)[0] == Before(s, EQUALS)
    ensures if EQUALS in s then
              After(s, EQUALS).Some? && Split(s, EQUALS) == [Before(s, EQUALS)] + Split(After(s, EQUALS).value, EQUALS)
            else Split(s, EQUALS) == [s] && Before(s, EQUALS) == s
  {
    hide Before;
  }

  lemma NoEquals(name: bytes)
    ensures IsIdent(name) ==> EQUALS !in name
  {
  }

  lemma {:induction false} JoinAppend(pieces: seq<bytes>, sep: u8, last: bytes)
    ensures Join(pieces + [last], sep) == (if pieces == [] then [] else Join(pieces, sep) + [sep]) + last
  {
    if |pieces| > 1 {
      JoinAppend(pieces[1..], sep, last);
      assert (pieces + [last])[1..] == pieces[1..] + [last];
    } else if |pieces| == 1 {
      assert (pieces + [last])[1..] == [last];
      assert Join([last], sep) == last;
    }
  }

  // ----- the ordered map -----

  predicate HasName(pairs: seq<Pair>, name: bytes) {
    exists i :: 0 <= i < |pairs| && pairs[i].name == name
  }

  /** The value of the first pair with the name. */
  function Lookup(pairs: seq<Pair>, name: bytes): Option<bytes> {
    if pairs == [] then None
    else if pairs[0].name == name then Some(pairs[0].value)
    else Lookup(pairs[1..], name)
  }

  lemma {:induction false} LookupFinds(pairs: seq<Pair>, name: bytes)
    ensures Lookup(pairs, name).Some? <==> HasName(pairs, name)
  {
    if pairs != [] {
      LookupFinds(pairs[1..], name);
      if HasName(pairs[1..], name) {
        var i :| 0 <= i < |pairs[1..]| && pairs[1..][i].name == name;
        assert pairs[i + 1].name == name;
      }
      if HasName(pairs, name) && pairs[0].name != name {
        var i :| 0 <= i < |pairs| && pairs[i].name == name;
        assert pairs[1..][i - 1].name == name;
      }
    }
  }

  /** Pair `i` is the first with the name. */
  ghost predicate FirstWithName(pairs: seq<Pair>, i: nat, name: bytes)
    requires i < |pairs|
  {
    pairs[i].name == name && forall j :: 0 <= j < i ==> pairs[j].name != name
  }

  /** The first pair with the name has the value. */
  ghost predicate IsValueOf(pairs: seq<Pair>, name: bytes, value: bytes) {
    exists i :: 0 <= i < |pairs| && FirstWithName(pairs, i, name) && pairs[i].value == value
  }

  lemma {:induction false} LookupIsFirst(pairs: seq<Pair>, name: bytes)
    ensures forall v: bytes :: Lookup(pairs, name) == Some(v) <==> IsValueOf(pairs, name, v)
  {
    if pairs != [] {
      if pairs[0].name == name {
        assert FirstWithName(pairs, 0, name);
      } else {
        var rest := pairs[1..];
        LookupIsFirst(rest, name);
        assert forall i :: 0 <= i < |rest| && FirstWithName(rest, i, name) ==> FirstWithName(pairs, i + 1, name);
        assert forall i :: 0 < i < |pairs| && FirstWithName(pairs, i, name) ==> FirstWithName(rest, i - 1, name) by {
          forall i | 0 < i < |pairs| && FirstWithName(pairs, i, name) ensures FirstWithName(rest, i - 1, name) {
            assert forall j :: 0 <= j < i - 1 ==> rest[j] == pairs[j + 1];
          }
        }
      }
    }
  }

  ghost predicate DistinctNames(pairs: seq<Pair>) {
    forall i, j :: 0 <= i < j < |pairs| ==> pairs[i].name != pairs[j].name
  }

  /** What adding a pair does: refused if the name is taken or the text gets too long. */
  function AddPair(pairs: seq<Pair>, p: Pair): Result<seq<Pair>, PhcError> {
    if HasName(pairs, p.name) then Err(ParamNameDuplicated)
    else if |ParamsText(pairs + [p])| > PARAMS_MAX_LENGTH then Err(ParamsMaxExceeded)
    else Ok(pairs + [p])
  }

  // ----- the buffer -----

  /** The fields of a buffer; derived equality compares all of them. */
  datatype StringBuf = StringBuf(length: nat, bytes: bytes) {
    predicate ZeroTail() {
      forall i :: length <= i < |bytes| ==> bytes[i] == 0
    }
  }

  /** `s` written over the bytes at `at`. */
  function Overwrite(b: bytes, at: nat, s: bytes): (c: bytes)
    requires at + |s| <= |b|
    ensures |c| == |b| && c[..at] == b[..at]
  {
    b[..at] + s + b[at + |s|..]
  }

  lemma OverwriteNothing(b: bytes, at: nat)
    requires at <= |b|
    ensures Overwrite(b, at, []) == b
  {
  }

  lemma OverwriteTwice(b: bytes, at: nat, s: bytes, t: bytes)
    requires at + |s| + |t| <= |b|
    ensures Overwrite(Overwrite(b, at, s), at + |s|, t) == Overwrite(b, at, s + t)
  {
  }

  lemma OverwriteWithSame(b: bytes, at: nat, s: bytes)
    requires at + |s| <= |b|
    ensures Overwrite(b, at, s) == b <==> s <= b[at..]
  {
    if Overwrite(b, at, s) == b {
      assert b[at..at + |s|] == Overwrite(b, at, s)[at..at + |s|] == s;
      assert b[at..] == b[at..at + |s|] + b[at + |s|..];
    }
    if s <= b[at..] {
      assert b == b[..at] + b[at..];
    }
  }

  /** The texts that are written into `room` bytes, up to the first that does not fit. */
  function Fitting(room: nat, texts: seq<bytes>): (s: bytes)
    ensures |s| <= room
  {
    if texts == [] || |texts[0]| > room then [] else texts[0] + Fitting(room - |texts[0]|, texts[1..])
  }

  lemma FittingStep(room: nat, first: bytes, rest: seq<bytes>)
    ensures Fitting(room, [first] + rest) == if |first| > room then [] else first + Fitting(room - |first|, rest)
  {
  }

  lemma FittingLast(room: nat, last: bytes)
    ensures Fitting(room, [last]) == if |last| > room then [] else last
  {
  }

  lemma FittingOfThree(room: nat, x: bytes, y: bytes, z: bytes)
    ensures Fitting(room, [x, y, z]) ==
            if |x| > room then [] else if |x| + |y| > room then x
            else if |x| + |y| + |z| > room then x + y else x + y + z
  {
    hide Fitting;
    assert [x, y, z] == [x] + [y, z] && [y, z] == [y] + [z];
    FittingStep(room, x, [y, z]);
    if |x| <= room {
      FittingStep(room - |x|, y, [z]);
      if |x| + |y| <= room {
        FittingLast(room - |x| - |y|, z);
      }
    }
  }

  /** Writing the three parts of a pair one after the other. */
  lemma PairWritten(b: bytes, at: nat, name: bytes, value: bytes)
    requires at <= |b|
    ensures var room, n, all := |b| - at, |name|, Fitting(|b| - at, [name, [EQUALS], value]);
            if n > room then Overwrite(b, at, all) == b
            else
              var c := Overwrite(b, at, name);
              if n + 1 > room then Overwrite(b, at, all) == c
              else
                var c' := Overwrite(c, at + n, [EQUALS]);
                Overwrite(b, at, all) == if n + 1 + |value| > room then c' else Overwrite(c', at + n + 1, value)
  {
    hide Overwrite, Fitting;
    var room := |b| - at;
    FittingOfThree(room, name, [EQUALS], value);
    if |name| > room {
      OverwriteNothing(b, at);
    } else if |name| + 1 <= room {
      OverwriteTwice(b, at, name, [EQUALS]);
      if |name| + 1 + |value| <= room {
        OverwriteTwice(b, at, name + [EQUALS], value);
      }
    }
  }

  /** An iterator over the pairs. */
  class Iter {
    const pieces: Pieces

    ghost predicate Valid()
      reads pieces
    {
      ParseAll(pieces.Remaining()).Ok?
    }

    /** The pairs that have not been returned. */
    ghost function Remaining(): seq<Pair>
      reads pieces
      requires Valid()
    {
      ParseAll(pieces.Remaining()).value
    }

    constructor (s: bytes)
      requires ParsePairs(s).Ok?
      ensures Valid() && Remaining() == ParsePairs(s).value && fresh(pieces)
    {
      hide Split;
      if s == [] {
        pieces := new Pieces.Empty(COMMA);
      } else {
        pieces := new Pieces(s, COMMA);
      }
    }

    method Next() returns (p: Option<Pair>)
      requires Valid()
      modifies pieces
      ensures Valid()
      ensures if old(Remaining()) == [] then p == None && Remaining() == []
              else p == Some(old(Remaining())[0]) && Remaining() == old(Remaining())[1..]
    {
      hide Split;
      var piece := pieces.Next();
      if piece.None? {
        return None;
      }
      var param := new Pieces(piece.value, EQUALS);
      var name := param.Next();
      var value := param.Next();
      p := Some(Pair(name.value, value.value));
    }
  }

  class ParamsString {
    const bytes: array<u8>
    var length: nat

    ghost predicate HasBuffer()
      reads this
    {
      length <= bytes.Length == PARAMS_MAX_LENGTH
    }

    /** The text is well formed. */
    ghost predicate Valid()
      reads this, bytes
    {
      HasBuffer() && ParsePairs(Text()).Ok?
    }

    function Text(): bytes
      reads this, bytes
      requires HasBuffer()
    {
      bytes[..length]
    }

    ghost function Pairs(): seq<Pair>
      reads this, bytes
      requires Valid()
    {
      ParsePairs(Text()).value
    }

    function Snapshot(): StringBuf
      reads this, bytes
    {
      StringBuf(length, bytes[..])
    }

    constructor ()
      ensures Valid() && Pairs() == [] && Text() == [] && Snapshot().ZeroTail() && fresh(bytes)
    {
      bytes := new u8[PARAMS_MAX_LENGTH](i => 0);
      length := 0;
    }

    /** `write_str`: all or nothing. */
    method WriteStr(input: bytes) returns (ok: bool)
      requires HasBuffer()
      modifies this`length, bytes
      ensures HasBuffer() && ok == (old(length) + |input| <= PARAMS_MAX_LENGTH)
      ensures Text() == if ok then old(Text()) + input else old(Text())
      ensures length == old(length) + if ok then |input| else 0
      ensures bytes[..] == if ok then Overwrite(old(bytes[..]), old(length), input) else old(bytes[..])
    {
      var newLength := length + |input|;
      if newLength > PARAMS_MAX_LENGTH {
        return false;
      }
      ghost var before := Text();
      CopyFromSlice(bytes, length, input);
      assert bytes[..] == bytes[..length] + bytes[length..newLength] + bytes[newLength..];
      length := newLength;
      assert Text() == before + input;
      ok := true;
    }

    /** Write a name, the delimiter and a value; stops at the first that does not fit. */
    method WritePair(name: bytes, value: bytes) returns (ok: bool)
      requires HasBuffer()
      modifies this`length, bytes
      ensures HasBuffer() && ok == (old(length) + |name| + 1 + |value| <= PARAMS_MAX_LENGTH)
      ensures old(length) <= length
      ensures ok ==> Text() == old(Text()) + PairText(Pair(name, value))
      ensures bytes[..] ==
              Overwrite(old(bytes[..]), old(length), Fitting(PARAMS_MAX_LENGTH - old(length), [name, [EQUALS], value]))
    {
      hide Overwrite, Fitting;
      ghost var before := Text();
      PairWritten(bytes[..], length, name, value);
      ok := WriteStr(name);
      if ok {
        ok := WriteStr([EQUALS]);
        if ok {
          ok := WriteStr(value);
          assert ok ==> Text() == before + (name + [EQUALS] + value);
        }
      }
    }

    /** Write a pair, behind a delimiter unless it is the first. */
    method WriteNext(name: bytes, value: bytes) returns (ok: bool)
      requires HasBuffer()
      modifies this`length, bytes
      ensures HasBuffer() && old(length) <= length
      ensures ok == (old(length) + (if old(length) == 0 then 0 else 1) + |name| + 1 + |value| <= PARAMS_MAX_LENGTH)
      ensures ok ==>
                Text() == (if old(length) == 0 then [] else old(Text()) + [COMMA]) + PairText(Pair(name, value))
      ensures old(length) != 0 ==>
                bytes[..] == Overwrite(old(bytes[..]), old(length),
                                       Fitting(PARAMS_MAX_LENGTH - old(length), [[COMMA], name, [EQUALS], value]))
    {
      hide Overwrite, Fitting, PairText;
      ghost var before, at := bytes[..], length;
      assert [[COMMA], name, [EQUALS], value] == [[COMMA]] + [name, [EQUALS], value];
      FittingStep(PARAMS_MAX_LENGTH - at, [COMMA], [name, [EQUALS], value]);
      OverwriteNothing(before, at);
      if length != 0 {
        ok := WriteStr([COMMA]);
        if !ok {
          return;
        }
      }
      ok := WritePair(name, value);
      if at != 0 {
        OverwriteTwice(before, at, [COMMA], Fitting(PARAMS_MAX_LENGTH - at - 1, [name, [EQUALS], value]));
      }
    }

    method Get(name: bytes) returns (value: Option<bytes>)
      requires Valid()
      ensures value == if IsIdent(name) then Lookup(Pairs(), name) else None
      ensures !IsIdent(name) ==> value == None
      ensures IsIdent(name) ==>
                forall v: bytes :: value == Some(v) <==> IsValueOf(Pairs(), name, v)
    {
      LookupIsFirst(Pairs(), name);
      hide IsValueOf, ParsePairs, ParseAll, ParsePair, Split, IsIdent;
      var ident := NewIdent(name);
      if ident.Err? {
        return None;
      }
      value := Find(name);
    }

    /** The loop of `get`. */
    method Find(name: bytes) returns (value: Option<bytes>)
      requires Valid()
      ensures value == Lookup(Pairs(), name)
    {
      hide ParsePairs, ParseAll, ParsePair, Split;
      var iter := new Iter(Text());
      var next := iter.Next();
      while next.Some?
        invariant iter.Valid() && fresh(iter.pieces)
        invariant Lookup(Pairs(), name) == Lookup((if next.Some? then [next.value] else []) + iter.Remaining(), name)
        invariant next.None? ==> iter.Remaining() == []
        decreases next.Some?, |iter.Remaining()|
      {
        var p := next.value;
        if p.name == name {
          return Some(p.value);
        }
        ghost var rest := iter.Remaining();
        assert ([p] + rest)[1..] == rest;
        next := iter.Next();
        assert (if next.Some? then [next.value] else []) + iter.Remaining() == rest;
      }
      value := None;
    }

    /** What a failed `add` writes behind the text: nothing if the name is taken, and otherwise
        the delimiter and whatever else fits. */
    ghost function Attempted(name: bytes, value: bytes): bytes
      reads this, bytes
      requires Valid()
    {
      if HasName(Pairs(), name) then []
      else Fitting(PARAMS_MAX_LENGTH - length, [[COMMA], name, [EQUALS], value])
    }

    /** Whether a failed `add` leaves a clean buffer clean. */
    ghost predicate FailsCleanly(name: bytes)
      reads this, bytes
      requires Valid()
    {
      HasName(Pairs(), name) || length == PARAMS_MAX_LENGTH
    }

    /** Nothing but zeros stays behind the text if nothing was written: a failed `add` starts with
        the delimiter. */
    lemma StaysClean(name: bytes, value: bytes)
      requires Valid() && Snapshot().ZeroTail()
      ensures Attempted(name, value) <= bytes[..][length..] <==> FailsCleanly(name)
    {
      hide ParsePairs, HasName, Fitting;
      assert [[COMMA], name, [EQUALS], value] == [[COMMA]] + [name, [EQUALS], value];
      FittingStep(PARAMS_MAX_LENGTH - length, [COMMA], [name, [EQUALS], value]);
      if !FailsCleanly(name) {
        assert bytes[..][length..][0] == 0 && Attempted(name, value)[0] == COMMA;
      }
    }

    /** `add`: on failure the text is rolled back, but not the bytes behind it. */
    method Add(name: bytes, value: bytes) returns (r: Result<(), PhcError>)
      requires Valid() && IsPair(Pair(name, value))
      modifies this`length, bytes
      ensures Valid()
      ensures var added := AddPair(old(Pairs()), Pair(name, value));
              r == (match added case Ok(_) => Ok(()) case Err(error) => Err(error)) &&
              Pairs() == if added.Ok? then added.value else old(Pairs())
      ensures var added := old(Pairs()) + [Pair(name, value)];
              if HasName(old(Pairs()), name) then r == Err(ParamNameDuplicated)
              else if |ParamsText(added)| > 127 then r == Err(ParamsMaxExceeded)
              else r == Ok(()) && Pairs() == added
      ensures r.Err? ==>
                length == old(length) && Text() == old(Text()) &&
                bytes[..] == Overwrite(old(bytes[..]), length, old(Attempted(name, value)))
      ensures r.Err? ==>
                (Snapshot() == old(Snapshot()) <==> old(Attempted(name, value)) <= old(bytes[..])[length..])
      ensures r.Err? && old(Snapshot()).ZeroTail() ==>
                (Snapshot() == old(Snapshot()) <==> old(FailsCleanly(name)))
    {
      hide ParsePairs, IsPair, ParamsText, Lookup, HasName, Fitting, Overwrite;
      OverwriteNothing(bytes[..], length);
      OverwriteWithSame(bytes[..], length, Attempted(name, value));
      if Snapshot().ZeroTail() && length != 0 {
        StaysClean(name, value);
      }
      ghost var pairs, text, p := Pairs(), Text(), Pair(name, value);
      TextWithOneMore(text, pairs, p);
      LookupFinds(pairs, name);
      PairIsIdent(p);
      var taken := Get(name);
      if taken.Some? {
        return Err(ParamNameDuplicated);
      }
      var origLen := length;
      var written := WriteNext(name, value);
      if !written {
        length := origLen;
        return Err(ParamsMaxExceeded);
      }
      r := Ok(());
    }

    /** `add_str`. */
    method AddStr(name: bytes, value: bytes) returns (r: Result<(), PhcError>)
      requires Valid()
      modifies this`length, bytes
      ensures Valid() && r == AddStrResult(old(Pairs()), name, value).0
      ensures Pairs() == AddStrResult(old(Pairs()), name, value).1
      ensures r.Err? ==> Text() == old(Text())
    {
      hide ParsePairs, IsIdent, IsValue, AddPair;
      var ident := NewIdent(name);
      if ident.Err? {
        return Err(ParamNameInvalid);
      }
      var valid := NewValue(value);
      if valid.Err? {
        return Err(ParamValueInvalid);
      }
      r := Add(name, value);
    }

    /** `add_decimal`. */
    method AddDecimal(name: bytes, value: u32) returns (r: Result<(), PhcError>)
      requires Valid()
      modifies this`length, bytes
      ensures Valid() && r == AddStrResult(old(Pairs()), name, Digits(value)).0
      ensures Pairs() == AddStrResult(old(Pairs()), name, Digits(value)).1
      ensures r.Err? ==> Text() == old(Text())
    {
      hide ParsePairs, IsIdent, IsValue, AddPair, Digits;
      DigitsAreValue(value);
      var ident := NewIdent(name);
      if ident.Err? {
        return Err(ParamNameInvalid);
      }
      r := Add(name, Digits(value));
    }

    /** `from_str`: exactly the texts of pairs that fit; names may repeat. */
    static method FromStr(s: bytes) returns (r: Result<ParamsString, PhcError>)
      ensures if |s| > PARAMS_MAX_LENGTH then r == Err(ParamsMaxExceeded)
              else match ParsePairs(s) case Ok(_) => r.Ok? case Err(error) => r == Err(error)
      ensures r.Ok? ==>
                fresh(r.value) && fresh(r.value.bytes) && r.value.Valid() && r.value.Text() == s &&
                r.value.Snapshot().ZeroTail()
    {
      hide ParseAll, Split;
      if |s| > PARAMS_MAX_LENGTH {
        return Err(ParamsMaxExceeded);
      }
      if s == [] {
        var empty := new ParamsString();
        return Ok(empty);
      }
      var checked := CheckPairs(s);
      if checked.Err? {
        return Err(checked.error);
      }
      var params := new ParamsString();
      CopyFromSlice(params.bytes, 0, s);
      params.length := |s|;
      assert params.Text() == s;
      forall i | |s| <= i < PARAMS_MAX_LENGTH ensures params.bytes[i] == 0 {
        assert params.bytes[|s|..][i - |s|] == 0;
      }
      r := Ok(params);
    }
  }

  lemma PairIsIdent(p: Pair)
    requires IsPair(p)
    ensures IsIdent(p.name) && 1 <= |p.name| <= IDENT_MAX_LENGTH && |p.value| <= VALUE_MAX_LENGTH
  {
  }

  lemma TextWithOneMore(text: bytes, pairs: seq<Pair>, p: Pair)
    requires ParsePairs(text) == Ok(pairs) && IsPair(p)
    ensures text == [] <==> pairs == []
    ensures var more := (if text == [] then [] else text + [COMMA]) + PairText(p);
            ParamsText(pairs + [p]) == more && ParsePairs(more) == Ok(pairs + [p])
  {
    hide ParsePairs, IsPair, ParamsText, PairText;
    ParamsAreText(text, pairs);
    TextIsEmpty(pairs);
    TextOfOneMore(pairs, p);
    ParamsAreText(ParamsText(pairs + [p]), pairs + [p]);
  }

  /** The result of adding a string, and the pairs afterwards. */
  function AddStrResult(pairs: seq<Pair>, name: bytes, value: bytes): (Result<(), PhcError>, seq<Pair>) {
    if !IsIdent(name) then (Err(ParamNameInvalid), pairs)
    else if !IsValue(value) then (Err(ParamValueInvalid), pairs)
    else
      match AddPair(pairs, Pair(name, value))
      case Ok(more) => (Ok(()), more)
      case Err(error) => (Err(error), pairs)
  }

  /** Both succeed, or both fail with the same error. */
  ghost predicate SameFailure<T, U>(r: Result<T, PhcError>, r': Result<U, PhcError>) {
    match r case Ok(_) => r'.Ok? case Err(error) => r' == Err(error)
  }

  /** The check of `from_str`: every piece between commas is a name and a value. */
  method CheckPairs(s: bytes) returns (r: Result<(), PhcError>)
    ensures r == match ParseAll(Split(s, COMMA)) case Ok(_) => Ok(()) case Err(error) => Err(error)
  {
    hide Split, ParsePair;
    ghost var all := Split(s, COMMA);
    var params := new Pieces(s, COMMA);
    var param := params.Next();
    while param.Some?
      invariant fresh(params)
      invariant SameFailure(ParseAll(all), ParseAll((if param.Some? then [param.value] else []) + params.Remaining()))
      invariant param.None? ==> params.Remaining() == []
      decreases param.Some?, |params.Remaining()|
    {
      ghost var rest := params.Remaining();
      assert ([param.value] + rest)[1..] == rest;
      var checked := CheckPair(param.value);
      if checked.Err? {
        return Err(checked.error);
      }
      param := params.Next();
      assert (if param.Some? then [param.value] else []) + params.Remaining() == rest;
    }
    r := Ok(());
  }

  method CheckPair(s: bytes) returns (r: Result<(), PhcError>)
    ensures r == match ParsePair(s) case Ok(_) => Ok(()) case Err(error) => Err(error)
  {
    hide Split, IsIdent;
    var pieces := new Pieces(s, EQUALS);
    var name := pieces.Next();
    var ident := NewIdent(name.value);
    if ident.Err? {
      return Err(ident.error);
    }
    var value := pieces.Next();
    if value.None? {
      return Err(ParamValueInvalid);
    }
    var valid := NewValue(value.value);
    if valid.Err? {
      return Err(valid.error);
    }
    var extra := pieces.Next();
    r := if extra.Some? then Err(ParamValueInvalid) else Ok(());
  }

  /** An `add` that fails and leaves a comma behind the text: 126 bytes of text leave room for
      the delimiter, but not for the name. */
  lemma CommaIsLeftBehind()
    ensures var pairs := [Pair([97], Fill(120, 64)), Pair([98], Fill(120, 57))];
            var p, text := Pair([99], []), ParamsText(pairs);
            ArePairs(pairs) && IsPair(p) && |text| == 126 && AddPair(pairs, p) == Err(ParamsMaxExceeded) &&
            Overwrite(text + [0], 126, Fitting(1, [[COMMA], p.name, [EQUALS], p.value])) == text + [COMMA]
  {
    hide Fill;
    var first, second, p := Pair([97], Fill(120, 64)), Pair([98], Fill(120, 57)), Pair([99], []);
    assert [first] == [] + [first] && [first, second] == [first] + [second];
    TextOfOneMore([], first);
    TextOfOneMore([first], second);
    TextOfOneMore([first, second], p);
  }

  // ----- whole runs -----

  datatype AddCall = Str(name: bytes, text: bytes) | Dec(name: bytes, number: u32) {
    function Value(): bytes {
      match this case Str(_, text) => text case Dec(_, n) => Digits(n)
    }
  }

  /** The pairs after a run of calls: those that could be added, in order. */
  function Run(pairs: seq<Pair>, calls: seq<AddCall>): seq<Pair>
    decreases |calls|
  {
    if calls == [] then pairs else Run(AddStrResult(pairs, calls[0].name, calls[0].Value()).1, calls[1..])
  }

  /** A call more: the pair is added if its name and value are valid, the name is new, and the text
      still fits; otherwise nothing changes. */
  lemma {:induction false} RunOneMore(pairs: seq<Pair>, calls: seq<AddCall>, call: AddCall)
    ensures var before, p := Run(pairs, calls), Pair(call.name, call.Value());
            Run(pairs, calls + [call]) ==
            if IsIdent(p.name) && IsValue(p.value) && !HasName(before, p.name) && |ParamsText(before + [p])| <= 127
            then before + [p] else before
    decreases |calls|
  {
    hide IsIdent, IsValue, ParamsText, HasName, AddCall.Value;
    if calls == [] {
      assert (calls + [call])[1..] == [];
    } else {
      assert (calls + [call])[1..] == calls[1..] + [call];
      RunOneMore(AddStrResult(pairs, calls[0].name, calls[0].Value()).1, calls[1..], call);
    }
  }

  /** Which error a call gives. */
  lemma WhyNotAdded(pairs: seq<Pair>, name: bytes, value: bytes)
    ensures var r, p := AddStrResult(pairs, name, value).0, Pair(name, value);
            r == if !IsIdent(name) then Err(ParamNameInvalid)
                 else if !IsValue(value) then Err(ParamValueInvalid)
                 else if HasName(pairs, name) then Err(ParamNameDuplicated)
                 else if |ParamsText(pairs + [p])| > 127 then Err(ParamsMaxExceeded)
                 else Ok(())
  {
    hide IsIdent, IsValue, ParamsText, HasName;
  }

  /** What every run keeps: valid pairs with distinct names, whose text fits and parses back. */
  lemma {:induction false} RunKeeps(pairs: seq<Pair>, calls: seq<AddCall>)
    requires ArePairs(pairs) && DistinctNames(pairs) && |ParamsText(pairs)| <= PARAMS_MAX_LENGTH
    ensures var after := Run(pairs, calls);
            ArePairs(after) && DistinctNames(after) && pairs <= after &&
            |ParamsText(after)| <= PARAMS_MAX_LENGTH && ParsePairs(ParamsText(after)) == Ok(after)
    decreases |calls|
  {
    hide ParsePairs, ParamsText, DistinctNames, ArePairs, IsIdent, IsValue, AddCall.Value, AddPair;
    if calls == [] {
      ParamsAreText(ParamsText(pairs), pairs);
    } else {
      var name, value := calls[0].name, calls[0].Value();
      AddKeeps(pairs, name, value);
      RunKeeps(AddStrResult(pairs, name, value).1, calls[1..]);
    }
  }

  lemma AddKeeps(pairs: seq<Pair>, name: bytes, value: bytes)
    requires ArePairs(pairs) && DistinctNames(pairs) && |ParamsText(pairs)| <= PARAMS_MAX_LENGTH
    ensures var after := AddStrResult(pairs, name, value).1;
            ArePairs(after) && DistinctNames(after) && pairs <= after && |ParamsText(after)| <= PARAMS_MAX_LENGTH
  {
    hide ParamsText, IsIdent, IsValue;
    var after := AddStrResult(pairs, name, value).1;
    if after != pairs {
      assert !HasName(pairs, name);
    }
  }

  /** A run of `add` calls on a new parameter string, failed ones included. */
  method AddAll(calls: seq<AddCall>) returns (params: ParamsString)
    ensures fresh(params) && fresh(params.bytes) && params.Valid()
    ensures params.Pairs() == Run([], calls) && params.Text() == ParamsText(Run([], calls))
    ensures |params.Text()| <= PARAMS_MAX_LENGTH && DistinctNames(params.Pairs())
  {
    hide ParsePairs, ParamsText, DistinctNames, AddStrResult;
    params := new ParamsString();
    for i := 0 to |calls|
      invariant fresh(params) && fresh(params.bytes) && params.Valid()
      invariant Run([], calls) == Run(params.Pairs(), calls[i..])
    {
      assert calls[i..][1..] == calls[i + 1..];
      match calls[i] {
        case Str(name, text) => var _ := params.AddStr(name, text);
        case Dec(name, n) => var _ := params.AddDecimal(name, n);
      }
    }
    NothingAdded();
    RunKeeps([], calls);
    ParamsAreText(params.Text(), params.Pairs());
  }

  lemma NothingAdded()
    ensures ArePairs([]) && DistinctNames([]) && ParamsText([]) == []
  {
  }
}
