/** The grammar of PEM documents (pem-rfc7468/src/grammar.rs): RFC 7468, sections 2 and 3. */
module PemGrammar {
  import opened Bits
  import opened Alphabets
  import opened Wrappers
  import Codec

  const CHAR_NUL: u8 := 0x00
  const CHAR_HT: u8 := 0x09
  const CHAR_SP: u8 := 0x20
  const CHAR_HYPHEN: u8 := 0x2D
  const CHAR_COLON: u8 := 0x3A

  /** `-----BEGIN ` */
  const PRE_ENCAPSULATION_BOUNDARY: bytes := [45, 45, 45, 45, 45, 66, 69, 71, 73, 78, 32]
  /** `-----END ` */
  const POST_ENCAPSULATION_BOUNDARY: bytes := [45, 45, 45, 45, 45, 69, 78, 68, 32]
  /** `-----` */
  const ENCAPSULATION_BOUNDARY_DELIMITER: bytes := [45, 45, 45, 45, 45]

  datatype PemError =
    | Base64(error: Codec.Error)
    | CharacterEncoding
    | HeaderDisallowed
    | Label
    | Length
    | Preamble
    | PreEncapsulationBoundary
    | PostEncapsulationBoundary

  predicate IsLabelChar(c: u8) {
    0x21 <= c <= 0x2C || 0x2E <= c <= 0x7E
  }

  predicate IsWsp(c: u8) {
    c == CHAR_HT || c == CHAR_SP
  }

  predicate IsAllowedInLabel(c: u8) {
    IsLabelChar(c) || IsWsp(c)
  }

  // ----- preamble -----

  /** The rest of the data from the first boundary that follows a line feed; a NUL byte
      before it is an error. */
  function FindBoundary(data: bytes): (r: Result<bytes, PemError>)
    ensures r.Ok? ==> PRE_ENCAPSULATION_BOUNDARY <= r.value
  {
    if data == [] || data[0] == CHAR_NUL then Err(Preamble)
    else if data[0] == CHAR_LF && PRE_ENCAPSULATION_BOUNDARY <= data[1..] then Ok(data[1..])
    else FindBoundary(data[1..])
  }

  function Stripped(data: bytes): (r: Result<bytes, PemError>)
    ensures r.Ok? ==> PRE_ENCAPSULATION_BOUNDARY <= r.value
  {
    if PRE_ENCAPSULATION_BOUNDARY <= data then Ok(data) else FindBoundary(data)
  }

  method StripPreamble(data: bytes) returns (r: Result<bytes, PemError>)
    ensures r == Stripped(data)
  {
    if PRE_ENCAPSULATION_BOUNDARY <= data {
      return Ok(data);
    }
    var rest := data;
    while rest != []
      invariant FindBoundary(rest) == FindBoundary(data)
      decreases |rest|
    {
      var byte := rest[0];
      var remaining := rest[1..];
      if byte == CHAR_NUL {
        return Err(Preamble);
      } else if byte == CHAR_LF && PRE_ENCAPSULATION_BOUNDARY <= remaining {
        return Ok(remaining);
      }
      rest := remaining;
    }
    r := Err(Preamble);
  }

  /** `preamble` is nothing, or lines without NUL bytes, none of which starts with the boundary. */
  ghost predicate IsPreamble(preamble: bytes, doc: bytes) {
    preamble == [] ||
    (preamble[|preamble| - 1] == CHAR_LF &&
     (forall i :: 0 <= i < |preamble| ==> preamble[i] != CHAR_NUL) &&
     !(PRE_ENCAPSULATION_BOUNDARY <= preamble + doc) &&
     forall i :: 0 < i < |preamble| && preamble[i - 1] == CHAR_LF ==>
       !(PRE_ENCAPSULATION_BOUNDARY <= (preamble + doc)[i..]))
  }

  lemma {:induction false} FindsAfter(preamble: bytes, doc: bytes)
    requires preamble != [] && preamble[|preamble| - 1] == CHAR_LF && PRE_ENCAPSULATION_BOUNDARY <= doc
    requires forall i :: 0 <= i < |preamble| ==> preamble[i] != CHAR_NUL
    requires forall i :: 0 < i < |preamble| && preamble[i - 1] == CHAR_LF ==>
               !(PRE_ENCAPSULATION_BOUNDARY <= (preamble + doc)[i..])
    ensures FindBoundary(preamble + doc) == Ok(doc)
  {
    var data := preamble + doc;
    if |preamble| == 1 {
      assert data[1..] == doc;
    } else {
      var preamble' := preamble[1..];
      assert data[1..] == preamble' + doc;
      forall i | 0 < i < |preamble'| && preamble'[i - 1] == CHAR_LF
        ensures !(PRE_ENCAPSULATION_BOUNDARY <= (preamble' + doc)[i..])
      {
        assert preamble[i + 1 - 1] == CHAR_LF && (preamble' + doc)[i..] == data[i + 1..];
      }
      FindsAfter(preamble', doc);
      assert preamble[1 - 1] == CHAR_LF ==> !(PRE_ENCAPSULATION_BOUNDARY <= data[1..]);
    }
  }

  /** Any preamble is stripped, up to the first boundary at the start of a line. */
  lemma PreambleIsStripped(preamble: bytes, doc: bytes)
    requires PRE_ENCAPSULATION_BOUNDARY <= doc && IsPreamble(preamble, doc)
    ensures Stripped(preamble + doc) == Ok(doc)
  {
    if preamble == [] {
      assert preamble + doc == doc;
    } else {
      FindsAfter(preamble, doc);
    }
  }

  /** What is stripped is a preamble. */
  lemma {:induction false} FoundIsAfterPreamble(data: bytes)
    requires FindBoundary(data).Ok?
    ensures var doc := FindBoundary(data).value;
            var n := |data| - |doc|;
            n > 0 && data[n..] == doc && PRE_ENCAPSULATION_BOUNDARY <= doc && data[n - 1] == CHAR_LF &&
            (forall i :: 0 <= i < n ==> data[i] != CHAR_NUL) &&
            forall i :: 0 < i < n && data[i - 1] == CHAR_LF ==> !(PRE_ENCAPSULATION_BOUNDARY <= data[i..])
  {
    if !(data[0] == CHAR_LF && PRE_ENCAPSULATION_BOUNDARY <= data[1..]) {
      FoundIsAfterPreamble(data[1..]);
      var doc := FindBoundary(data).value;
      var n := |data| - |doc|;
      forall i | 0 < i < n && data[i - 1] == CHAR_LF
        ensures !(PRE_ENCAPSULATION_BOUNDARY <= data[i..])
      {
        if i > 1 {
          assert data[1..][i - 2] == CHAR_LF && data[1..][i - 1..] == data[i..];
        }
      }
      forall i | 0 <= i < n ensures data[i] != CHAR_NUL {
        if i > 0 {
          assert data[1..][i - 1] == data[i];
        }
      }
    }
  }

  /** Everything that is accepted is a preamble and what follows it. */
  lemma StrippedIsPreamble(data: bytes)
    requires Stripped(data).Ok?
    ensures var doc := Stripped(data).value;
            |doc| <= |data| && PRE_ENCAPSULATION_BOUNDARY <= doc &&
            data == data[..|data| - |doc|] + doc && IsPreamble(data[..|data| - |doc|], doc)
  {
    hide FindBoundary;
    if !(PRE_ENCAPSULATION_BOUNDARY <= data) {
      FoundIsAfterPreamble(data);
      var doc := Stripped(data).value;
      assert data == data[..|data| - |doc|] + doc;
    } else {
      assert data == [] + data;
    }
  }

  /** A line other than the first that starts with the boundary, and no NUL byte before it. */
  ghost predicate BoundaryAt(data: bytes, i: nat)
    requires i <= |data|
  {
    i > 0 && data[i - 1] == '\n' as int && Ascii("-----BEGIN ") <= data[i..] &&
    forall j :: 0 <= j < i ==> data[j] != 0
  }

  lemma {:induction false} BoundaryIsFound(data: bytes)
    ensures FindBoundary(data).Ok? <==> exists i :: 0 <= i <= |data| && BoundaryAt(data, i)
    ensures FindBoundary(data).Err? ==> FindBoundary(data).error == Preamble
  {
    BoundariesAreAscii();
    if FindBoundary(data).Ok? {
      FoundIsAfterPreamble(data);
      assert BoundaryAt(data, |data| - |FindBoundary(data).value|);
    }
    if data != [] {
      BoundaryIsFound(data[1..]);
      if i :| 0 <= i <= |data| && BoundaryAt(data, i) {
        assert data[0] != CHAR_NUL;
        if i == 1 {
          assert data[0] == CHAR_LF;
        } else {
          assert data[1..][i - 1..] == data[i..];
          assert BoundaryAt(data[1..], i - 1);
        }
      }
    }
  }

  /** Data without a boundary at the start of a line is refused for its preamble. */
  lemma WithoutBoundary(data: bytes)
    ensures Stripped(data) == Err(Preamble) <==>
            !(Ascii("-----BEGIN ") <= data) && forall i :: 0 <= i <= |data| ==> !BoundaryAt(data, i)
    ensures Stripped(data).Err? ==> Stripped(data) == Err(Preamble)
  {
    hide FindBoundary, BoundaryAt;
    BoundariesAreAscii();
    BoundaryIsFound(data);
  }

  /** The boundaries in characters. */
  lemma BoundariesAreAscii()
    ensures PRE_ENCAPSULATION_BOUNDARY == Ascii("-----BEGIN ")
    ensures POST_ENCAPSULATION_BOUNDARY == Ascii("-----END ")
    ensures ENCAPSULATION_BOUNDARY_DELIMITER == Ascii("-----")
  {
  }

  // ----- line endings -----

  predicate IsEol(s: bytes) {
    s == [CHAR_CR] || s == [CHAR_LF] || s == [CHAR_CR, CHAR_LF]
  }

  /** A newline at the start of a text is as long as it can be. */
  lemma LeadingEol(s: bytes)
    requires StripLeadingEol(s).Some?
    ensures var rest := StripLeadingEol(s).value;
            |rest| <= |s| && IsEol(s[..|s| - |rest|]) && s == s[..|s| - |rest|] + rest &&
            (s[..|s| - |rest|] == [CHAR_CR] ==> rest == [] || rest[0] != CHAR_LF)
  {
  }

  /** A newline at the end of a text is as long as it can be. */
  lemma TrailingEol(s: bytes)
    requires StripTrailingEol(s).Some?
    ensures var rest := StripTrailingEol(s).value;
            IsEol(s[|rest|..]) && s == rest + s[|rest|..] &&
            (s[|rest|..] == [CHAR_LF] ==> rest == [] || rest[|rest| - 1] != CHAR_CR)
  {
  }

  lemma EolIsLeading(eol: bytes, rest: bytes)
    requires IsEol(eol) && (eol == [CHAR_CR] ==> rest == [] || rest[0] != CHAR_LF)
    ensures StripLeadingEol(eol + rest) == Some(rest)
  {
    assert (eol + rest)[|eol|..] == rest;
  }

  lemma EolIsTrailing(rest: bytes, eol: bytes)
    requires IsEol(eol) && (eol == [CHAR_LF] ==> rest == [] || rest[|rest| - 1] != CHAR_CR)
    ensures StripTrailingEol(rest + eol) == Some(rest)
  {
    var s := rest + eol;
    var n := |s|;
    assert s[..|rest|] == rest && s[n - 1] == eol[|eol| - 1];
    if |eol| == 2 {
      assert s[n - 2] == CHAR_CR;
    } else if rest != [] {
      assert s[n - 2] == rest[|rest| - 1];
    }
  }

  function StripLeadingEol(s: bytes): Option<bytes> {
    if s != [] && s[0] == CHAR_LF then Some(s[1..])
    else if |s| >= 2 && s[0] == CHAR_CR && s[1] == CHAR_LF then Some(s[2..])
    else if s != [] && s[0] == CHAR_CR then Some(s[1..])
    else None
  }

  function StripTrailingEol(s: bytes): (r: Option<bytes>)
    ensures r.Some? ==> r.value <= s && |r.value| < |s|
  {
    var n := |s|;
    if n >= 2 && s[n - 2] == CHAR_CR && s[n - 1] == CHAR_LF then Some(s[..n - 2])
    else if n >= 1 && s[n - 1] == CHAR_LF then Some(s[..n - 1])
    else if n >= 1 && s[n - 1] == CHAR_CR then Some(s[..n - 1])
    else None
  }

  // ----- labels -----

  /** Length of the label at the start of `s`, of which `n` characters have been scanned. */
  function LabelEnd(s: bytes, n: nat, lastWasWsp: bool): (r: Option<nat>)
    requires n <= |s|
    ensures r.Some? ==> n <= r.value <= |s|
    decreases |s| - n
  {
    if n == |s| then Some(n)
    else if IsLabelChar(s[n]) then LabelEnd(s, n + 1, false)
    else if s[n] == CHAR_HYPHEN then Some(n)
    else if n != 0 && IsWsp(s[n]) && !lastWasWsp then LabelEnd(s, n + 1, true)
    else None
  }

  function AfterLabel(s: bytes, n: nat): Option<(bytes, bytes)>
    requires n <= |s|
  {
    if ENCAPSULATION_BOUNDARY_DELIMITER <= s[n..] then
      match StripLeadingEol(s[n..][5..])
      case Some(body) => Some((s[..n], body))
      case None => None
    else None
  }

  /** The label and the encapsulated text after it. */
  function LabelSplit(s: bytes): Option<(bytes, bytes)> {
    match LabelEnd(s, 0, false)
    case Some(n) => AfterLabel(s, n)
    case None => None
  }

  method SplitLabel(s: bytes) returns (r: Option<(bytes, bytes)>)
    ensures r == LabelSplit(s)
  {
    var n := 0;
    var lastWasWsp := false;
    while n < |s|
      invariant n <= |s| && LabelEnd(s, 0, false) == LabelEnd(s, n, lastWasWsp)
    {
      var c := s[n];
      if IsLabelChar(c) {
        lastWasWsp := false;
      } else if c == CHAR_HYPHEN {
        break;
      } else if n != 0 && IsWsp(c) {
        if lastWasWsp {
          return None;
        }
        lastWasWsp := true;
      } else {
        return None;
      }
      n := n + 1;
    }
    r := AfterLabel(s, n);
  }

  /** Allowed characters only, and no two consecutive blanks. */
  ghost predicate ValidLabel(typeLabel: bytes) {
    (forall i :: 0 <= i < |typeLabel| ==> IsAllowedInLabel(typeLabel[i])) &&
    (forall i :: 0 < i < |typeLabel| ==> !(IsWsp(typeLabel[i - 1]) && IsWsp(typeLabel[i])))
  }

  /** Labels are printable ASCII without hyphens, and single blanks or tabs. */
  lemma LabelCharacters(typeLabel: bytes)
    ensures ValidLabel(typeLabel) <==>
            (forall i :: 0 <= i < |typeLabel| ==>
               typeLabel[i] == '\t' as int || (' ' as int <= typeLabel[i] <= '~' as int && typeLabel[i] != '-' as int)) &&
            forall i :: 0 < i < |typeLabel| ==>
              !(typeLabel[i - 1] in Ascii(" \t") && typeLabel[i] in Ascii(" \t"))
  {
    assert Ascii(" \t") == [CHAR_SP, CHAR_HT];
    assert forall c: u8 :: c in Ascii(" \t") <==> IsWsp(c);
  }

  method ValidateLabel(typeLabel: bytes) returns (r: Result<(), PemError>)
    ensures r == if ValidLabel(typeLabel) then Ok(()) else Err(Label)
  {
    var lastWasWsp := false;
    for i := 0 to |typeLabel|
      invariant forall j :: 0 <= j < i ==> IsAllowedInLabel(typeLabel[j])
      invariant forall j :: 0 < j < i ==> !(IsWsp(typeLabel[j - 1]) && IsWsp(typeLabel[j]))
      invariant lastWasWsp == (i > 0 && IsWsp(typeLabel[i - 1]))
    {
      if !IsAllowedInLabel(typeLabel[i]) {
        return Err(Label);
      }
      if IsWsp(typeLabel[i]) {
        if lastWasWsp {
          return Err(Label);
        }
        lastWasWsp := true;
      } else {
        lastWasWsp := false;
      }
    }
    r := Ok(());
  }

  /** Scanning a valid label stops at the delimiter; a leading blank is the only thing that
      `validate_label` allows and `split_label` refuses. */
  lemma {:induction false} LabelEndOfValid(typeLabel: bytes, rest: bytes, n: nat)
    requires ValidLabel(typeLabel) && n <= |typeLabel|
    requires rest != [] && rest[0] == CHAR_HYPHEN
    requires n == 0 ==> typeLabel == [] || !IsWsp(typeLabel[0])
    ensures LabelEnd(typeLabel + rest, n, n > 0 && IsWsp(typeLabel[n - 1])) == Some(|typeLabel|)
    decreases |typeLabel| - n
  {
    if n < |typeLabel| {
      LabelEndOfValid(typeLabel, rest, n + 1);
      assert IsAllowedInLabel(typeLabel[n]);
      assert n > 0 ==> !(IsWsp(typeLabel[n - 1]) && IsWsp(typeLabel[n]));
    }
  }

  /** What `split_label` makes of an encoded label. */
  lemma SplitOfValidLabel(typeLabel: bytes, rest: bytes)
    requires ValidLabel(typeLabel)
    ensures LabelSplit(typeLabel + ENCAPSULATION_BOUNDARY_DELIMITER + rest) ==
            if typeLabel != [] && IsWsp(typeLabel[0]) then None
            else match StripLeadingEol(rest)
              case Some(body) => Some((typeLabel, body))
              case None => None
  {
    var s := typeLabel + ENCAPSULATION_BOUNDARY_DELIMITER + rest;
    if typeLabel == [] || !IsWsp(typeLabel[0]) {
      assert s == typeLabel + (ENCAPSULATION_BOUNDARY_DELIMITER + rest);
      LabelEndOfValid(typeLabel, ENCAPSULATION_BOUNDARY_DELIMITER + rest, 0);
      assert s[|typeLabel|..] == ENCAPSULATION_BOUNDARY_DELIMITER + rest && s[|typeLabel|..][5..] == rest;
    }
  }

  /** What `split_label` refuses although `validate_label` allows it. */
  predicate StartsWithBlank(typeLabel: bytes) {
    typeLabel != [] && IsWsp(typeLabel[0])
  }

  /** A scan that succeeds has passed the characters of a label. */
  lemma {:induction false} ScannedIsLabel(s: bytes, n: nat, lastWasWsp: bool)
    requires n <= |s| && LabelEnd(s, n, lastWasWsp).Some?
    requires lastWasWsp == (n > 0 && IsWsp(s[n - 1]))
    ensures var m := LabelEnd(s, n, lastWasWsp).value;
            (forall i :: n <= i < m ==> IsAllowedInLabel(s[i])) &&
            (forall i :: n <= i < m && i > 0 ==> !(IsWsp(s[i - 1]) && IsWsp(s[i]))) &&
            (n == 0 < m ==> !IsWsp(s[0]))
    decreases |s| - n
  {
    if n < |s| && s[n] != CHAR_HYPHEN {
      ScannedIsLabel(s, n + 1, IsWsp(s[n]));
    }
  }

  lemma ScannedIsValid(s: bytes)
    requires LabelEnd(s, 0, false).Some?
    ensures var typeLabel := s[..LabelEnd(s, 0, false).value]; ValidLabel(typeLabel) && !StartsWithBlank(typeLabel)
  {
    hide LabelEnd, IsLabelChar;
    ScannedIsLabel(s, 0, false);
  }

  lemma AfterLabelParts(s: bytes, n: nat)
    requires n <= |s| && AfterLabel(s, n).Some?
    ensures var (typeLabel, body) := AfterLabel(s, n).value;
            typeLabel == s[..n] &&
            exists eol: bytes :: IsSplit(s, typeLabel, eol, body)
  {
    hide StripLeadingEol, IsEol;
    var rest := s[n..][5..];
    LeadingEol(rest);
    var body := StripLeadingEol(rest).value;
    var eol := rest[..|rest| - |body|];
    assert s[n..] == ENCAPSULATION_BOUNDARY_DELIMITER + rest && s == s[..n] + s[n..];
    FourParts(s[..n], ENCAPSULATION_BOUNDARY_DELIMITER, eol, body);
    assert IsSplit(s, s[..n], eol, body);
  }

  lemma FourParts(a: bytes, b: bytes, c: bytes, d: bytes)
    ensures a + b + c + d == a + (b + (c + d))
  {
  }

  /** A label, the delimiter, a newline that is as long as it can be, and the rest. */
  ghost predicate IsSplit(s: bytes, typeLabel: bytes, eol: bytes, body: bytes) {
    IsEol(eol) && (eol == [CHAR_CR] ==> body == [] || body[0] != CHAR_LF) &&
    s == typeLabel + ENCAPSULATION_BOUNDARY_DELIMITER + eol + body
  }

  /** Whatever `split_label` accepts is a valid label without a blank at its start, the
      delimiter, a newline, and the rest. */
  lemma SplitIsLabel(s: bytes)
    requires LabelSplit(s).Some?
    ensures var (typeLabel, body) := LabelSplit(s).value;
            ValidLabel(typeLabel) && !StartsWithBlank(typeLabel) && exists eol: bytes :: IsSplit(s, typeLabel, eol, body)
  {
    hide LabelEnd, ValidLabel, StartsWithBlank, AfterLabel, IsSplit;
    ScannedIsValid(s);
    AfterLabelParts(s, LabelEnd(s, 0, false).value);
  }
}
