/** Whole PEM documents: layout, exact lengths, and parsing (pem-rfc7468/src/encoder.rs and
    the encapsulation parser of pem-rfc7468/src/decoder.rs). */
module PemDocument {
  import opened Bits
  import opened Alphabets
  import opened Codec
  import opened Lines
  import opened PemGrammar
  import opened Wrappers
  import Streaming

  const BASE64_WRAP_WIDTH: nat := 64

  /** Padded standard Base64. */
  function Base64Encoding(): Encoding {
    Encoding(Standard(), true)
  }

  function HeaderParts(typeLabel: bytes, ending: LineEnding): seq<bytes> {
    [PRE_ENCAPSULATION_BOUNDARY, typeLabel, ENCAPSULATION_BOUNDARY_DELIMITER, ending.Bytes()]
  }

  function FooterParts(typeLabel: bytes, ending: LineEnding): seq<bytes> {
    [ending.Bytes(), POST_ENCAPSULATION_BOUNDARY, typeLabel, ENCAPSULATION_BOUNDARY_DELIMITER, ending.Bytes()]
  }

  function Header(typeLabel: bytes, ending: LineEnding): bytes {
    PRE_ENCAPSULATION_BOUNDARY + typeLabel + ENCAPSULATION_BOUNDARY_DELIMITER + ending.Bytes()
  }

  function Footer(typeLabel: bytes, ending: LineEnding): bytes {
    ending.Bytes() + POST_ENCAPSULATION_BOUNDARY + typeLabel + ENCAPSULATION_BOUNDARY_DELIMITER + ending.Bytes()
  }

  /** The document that encapsulates `d`. */
  function Document(typeLabel: bytes, ending: LineEnding, width: nat, d: bytes): bytes
    requires width > 0
  {
    Header(typeLabel, ending) + Wrapped(Encoded(Base64Encoding(), d), width, ending.Bytes()) +
    Footer(typeLabel, ending)
  }

  /** A newline in characters. */
  function Newline(ending: LineEnding): bytes {
    match ending
    case CR => Ascii("\r")
    case LF => Ascii("\n")
    case CRLF => Ascii("\r\n")
  }

  /** The document in characters: padded standard Base64 between the two boundary lines. */
  lemma DocumentInCharacters(typeLabel: bytes, ending: LineEnding, width: nat, d: bytes)
    requires width > 0
    ensures var nl := Newline(ending);
            Document(typeLabel, ending, width, d) ==
            Ascii("-----BEGIN ") + typeLabel + Ascii("-----") + nl +
            Wrapped(Encoded(Encoding(Standard(), true), d), width, nl) +
            (nl + Ascii("-----END ") + typeLabel + Ascii("-----") + nl)
  {
    hide Encoded, Wrapped;
    BoundariesAreAscii();
    assert Newline(ending) == ending.Bytes();
  }

  // ----- length arithmetic, with its overflow checks -----

  function CheckedAdd(x: nat, y: nat): Option<nat> {
    if x + y <= USIZE_MAX then Some(x + y) else None
  }

  function CheckedMul(x: nat, y: nat): Option<nat> {
    if x * y <= USIZE_MAX then Some(x * y) else None
  }

  function CheckedSum(acc: nat, lens: seq<nat>): Option<nat>
    decreases |lens|
  {
    if lens == [] then Some(acc)
    else
      match CheckedAdd(acc, lens[0])
      case Some(sum) => CheckedSum(sum, lens[1..])
      case None => None
  }

  function EncapsulatedLenInner(typeLabel: bytes, ending: LineEnding, base64Len: nat): Option<nat> {
    var eol := |ending.Bytes()|;
    CheckedSum(0, [|PRE_ENCAPSULATION_BOUNDARY|, |typeLabel|, |ENCAPSULATION_BOUNDARY_DELIMITER|, eol, base64Len, eol,
                   |POST_ENCAPSULATION_BOUNDARY|, |typeLabel|, |ENCAPSULATION_BOUNDARY_DELIMITER|, eol])
  }

  function Base64LenWrapped(base64Len: nat, width: nat, ending: LineEnding): Option<nat>
    requires width > 0
  {
    var lines := (if base64Len == 0 then 0 else base64Len - 1) / width;
    match CheckedMul(lines, |ending.Bytes()|)
    case Some(len) => CheckedAdd(len, base64Len)
    case None => None
  }

  /** `encapsulated_len_wrapped`: an estimate from the input length alone. */
  function EncapsulatedLenWrapped(typeLabel: bytes, width: nat, ending: LineEnding, inputLen: nat): Result<nat, PemError> {
    if width < MIN_LINE_WIDTH then Err(Length)
    else
      match CheckedMul(inputLen, 4)
      case None => Err(Length)
      case Some(n) =>
        match CheckedAdd(n / 3, 3)
        case None => Err(Length)
        case Some(rounded) =>
          var base64Len := And(rounded, -4);
          AndHighMask(rounded, 2);
          assert Pow2(2) == 4;
          match Base64LenWrapped(base64Len, width, ending)
          case None => Err(Length)
          case Some(wrapped) =>
            match EncapsulatedLenInner(typeLabel, ending, wrapped)
            case None => Err(Length)
            case Some(len) => Ok(len)
  }

  /** `encoded_len`: the precise length, for input that fits in memory. */
  function EncodedLenOf(typeLabel: bytes, ending: LineEnding, input: bytes): Result<nat, PemError> {
    match Base64LenWrapped(EncodedLen(|input|, true), BASE64_WRAP_WIDTH, ending)
    case None => Err(Length)
    case Some(wrapped) =>
      match EncapsulatedLenInner(typeLabel, ending, wrapped)
      case None => Err(Length)
      case Some(len) => Ok(len)
  }

  function Total(lens: seq<nat>): nat {
    if lens == [] then 0 else lens[0] + Total(lens[1..])
  }

  lemma {:induction false} CheckedSumIsExact(acc: nat, lens: seq<nat>)
    requires acc <= USIZE_MAX
    ensures CheckedSum(acc, lens) == if acc + Total(lens) <= USIZE_MAX then Some(acc + Total(lens)) else None
    decreases |lens|
  {
    if lens != [] && acc + lens[0] <= USIZE_MAX {
      CheckedSumIsExact(acc + lens[0], lens[1..]);
    }
  }

  lemma DocumentLength(typeLabel: bytes, ending: LineEnding, width: nat, d: bytes)
    requires width > 0
    ensures |Document(typeLabel, ending, width, d)| ==
            30 + 2 * |typeLabel| + 3 * |ending.Bytes()| +
            WrappedLen(EncodedLen(|d|, true), width, |ending.Bytes()|)
  {
    hide Encoded, Wrapped;
    WrappedLength(Encoded(Base64Encoding(), d), width, ending.Bytes());
    EncodedLength(Base64Encoding(), d);
  }

  lemma InnerLenIsExact(typeLabel: bytes, ending: LineEnding, base64Len: nat)
    ensures var len := 30 + 2 * |typeLabel| + 3 * |ending.Bytes()| + base64Len;
            EncapsulatedLenInner(typeLabel, ending, base64Len) == if len <= USIZE_MAX then Some(len) else None
  {
    hide LineEnding.Bytes;
    var eol := |ending.Bytes()|;
    var tail := [eol, |POST_ENCAPSULATION_BOUNDARY|, |typeLabel|, |ENCAPSULATION_BOUNDARY_DELIMITER|, eol];
    var head := [|PRE_ENCAPSULATION_BOUNDARY|, |typeLabel|, |ENCAPSULATION_BOUNDARY_DELIMITER|, eol, base64Len];
    TotalOfFive(head);
    TotalOfFive(tail);
    TotalConcat(head, tail);
    CheckedSumIsExact(0, head + tail);
    assert head + tail ==
      [|PRE_ENCAPSULATION_BOUNDARY|, |typeLabel|, |ENCAPSULATION_BOUNDARY_DELIMITER|, eol, base64Len, eol,
       |POST_ENCAPSULATION_BOUNDARY|, |typeLabel|, |ENCAPSULATION_BOUNDARY_DELIMITER|, eol];
  }

  lemma TotalOfFive(lens: seq<nat>)
    requires |lens| == 5
    ensures Total(lens) == lens[0] + lens[1] + lens[2] + lens[3] + lens[4]
  {
    assert Total(lens[5..]) == 0;
    assert Total(lens[4..]) == lens[4] + Total(lens[4..][1..]) && lens[4..][1..] == lens[5..];
    assert Total(lens[3..]) == lens[3] + Total(lens[3..][1..]) && lens[3..][1..] == lens[4..];
    assert Total(lens[2..]) == lens[2] + Total(lens[2..][1..]) && lens[2..][1..] == lens[3..];
    assert Total(lens[1..]) == lens[1] + Total(lens[1..][1..]) && lens[1..][1..] == lens[2..];
  }

  lemma {:induction false} TotalConcat(s: seq<nat>, t: seq<nat>)
    ensures Total(s + t) == Total(s) + Total(t)
  {
    if s == [] {
      assert s + t == t;
    } else {
      TotalConcat(s[1..], t);
      assert (s + t)[1..] == s[1..] + t;
    }
  }

  lemma Base64LenIsExact(n: nat, width: nat, ending: LineEnding)
    requires width > 0
    ensures var len := WrappedLen(n, width, |ending.Bytes()|);
            Base64LenWrapped(n, width, ending) == if len <= USIZE_MAX then Some(len) else None
  {
    if n == 0 {
      RemainderUnique(0, width, 0, 0);
    }
  }

  /** The precise length is the length of the document, or an overflow is reported. */
  lemma EncodedLenIsExact(typeLabel: bytes, ending: LineEnding, d: bytes)
    ensures var doc := Document(typeLabel, ending, BASE64_WRAP_WIDTH, d);
            EncodedLenOf(typeLabel, ending, d) == if |doc| <= USIZE_MAX then Ok(|doc|) else Err(Length)
  {
    hide Document, EncodedLen, EncapsulatedLenInner, Base64LenWrapped, WrappedLen;
    var n := EncodedLen(|d|, true);
    DocumentLength(typeLabel, ending, BASE64_WRAP_WIDTH, d);
    Base64LenIsExact(n, BASE64_WRAP_WIDTH, ending);
    InnerLenIsExact(typeLabel, ending, WrappedLen(n, BASE64_WRAP_WIDTH, |ending.Bytes()|));
  }

  /** The estimate from the input length is exact too, whenever it is not refused for overflow. */
  lemma EstimateIsExact(typeLabel: bytes, width: nat, ending: LineEnding, d: bytes)
    requires width >= MIN_LINE_WIDTH
    ensures var doc := Document(typeLabel, ending, width, d);
            EncapsulatedLenWrapped(typeLabel, width, ending, |d|) ==
            if 4 * |d| <= USIZE_MAX && |doc| <= USIZE_MAX then Ok(|doc|) else Err(Length)
  {
    hide Document, EncodedLen, EncapsulatedLenInner, Base64LenWrapped, WrappedLen, And;
    var n := |d|;
    if 4 * n <= USIZE_MAX {
      MaskedEstimate(n);
      DocumentLength(typeLabel, ending, width, d);
      Base64LenIsExact(EncodedLen(n, true), width, ending);
      InnerLenIsExact(typeLabel, ending, WrappedLen(EncodedLen(n, true), width, |ending.Bytes()|));
    }
  }

  /** `((4 * n) / 3 + 3) & !3` is the padded length. */
  lemma MaskedEstimate(n: nat)
    ensures And(n * 4 / 3 + 3, -4) == EncodedLen(n, true)
  {
    hide And, EncodedLen;
    var q, r := n / 3, n % 3;
    EncodedLenOfGroups(n, true);
    RemainderUnique(n * 4, 3, 4 * q + r, r);
    assert Pow2(2) == 4;
    AndHighMask(n * 4 / 3 + 3, 2);
  }

  // ----- parsing -----

  datatype Encapsulation = Encapsulation(typeLabel: bytes, text: bytes)

  predicate EndsWith(s: bytes, suffix: bytes) {
    |suffix| <= |s| && s[|s| - |suffix|..] == suffix
  }

  /** Strip the suffixes off `body`, the last one first. */
  function StripSuffixes(body: bytes, suffixes: seq<bytes>): Option<bytes>
    decreases |suffixes|
  {
    if suffixes == [] then Some(body)
    else
      var suffix := suffixes[|suffixes| - 1];
      if EndsWith(body, suffix) then StripSuffixes(body[..|body| - |suffix|], suffixes[..|suffixes| - 1]) else None
  }

  /** The text between the label and the closing boundary. */
  function TextBefore(typeLabel: bytes, body: bytes): Result<Encapsulation, PemError> {
    var trimmed := match StripTrailingEol(body) case Some(b) => b case None => body;
    if !EndsWith(trimmed, ENCAPSULATION_BOUNDARY_DELIMITER) then Err(PreEncapsulationBoundary)
    else
      match StripSuffixes(trimmed[..|trimmed| - 5], [POST_ENCAPSULATION_BOUNDARY, typeLabel])
      case None => Err(PostEncapsulationBoundary)
      case Some(rest) =>
        match StripTrailingEol(rest)
        case None => Err(PostEncapsulationBoundary)
        case Some(text) => Ok(Encapsulation(typeLabel, text))
  }

  function Parsed(data: bytes): Result<Encapsulation, PemError> {
    match Stripped(data)
    case Err(error) => Err(error)
    case Ok(doc) =>
      if !(PRE_ENCAPSULATION_BOUNDARY <= doc) then Err(PreEncapsulationBoundary)
      else
        match LabelSplit(doc[|PRE_ENCAPSULATION_BOUNDARY|..])
        case None => Err(Label)
        case Some((typeLabel, body)) => TextBefore(typeLabel, body)
  }

  method Parse(data: bytes) returns (r: Result<Encapsulation, PemError>)
    ensures r == Parsed(data)
  {
    hide Stripped, LabelSplit, StripTrailingEol;
    var stripped := StripPreamble(data);
    if stripped.Err? {
      return Err(stripped.error);
    }
    var doc := stripped.value;
    if !(PRE_ENCAPSULATION_BOUNDARY <= doc) {
      return Err(PreEncapsulationBoundary);
    }
    var split := SplitLabel(doc[|PRE_ENCAPSULATION_BOUNDARY|..]);
    if split.None? {
      return Err(Label);
    }
    var (typeLabel, rest) := split.value;
    var body := match StripTrailingEol(rest) case Some(b) => b case None => rest;
    if !EndsWith(body, ENCAPSULATION_BOUNDARY_DELIMITER) {
      return Err(PreEncapsulationBoundary);
    }
    body := body[..|body| - 5];
    var slices := [POST_ENCAPSULATION_BOUNDARY, typeLabel];
    ghost var whole := StripSuffixes(body, slices);
    assert slices[..2] == slices;
    for i := |slices| downto 0
      invariant StripSuffixes(body, slices[..i]) == whole
    {
      assert slices[..i + 1][..i] == slices[..i];
      if !EndsWith(body, slices[i]) {
        return Err(PostEncapsulationBoundary);
      }
      body := body[..|body| - |slices[i]|];
    }
    var text := StripTrailingEol(body);
    r := match text case Some(t) => Ok(Encapsulation(typeLabel, t)) case None => Err(PostEncapsulationBoundary);
  }

  /** Why a text is no document: no boundary at the start of a line; no label, delimiter and newline
      behind it; no delimiter at the end; or something else in place of the closing boundary. */
  lemma WhyNotParsed(data: bytes)
    ensures Parsed(data) == Err(Preamble) <==> Stripped(data).Err?
    ensures Parsed(data) == Err(Label) <==> Stripped(data).Ok? && LabelSplit(Stripped(data).value[11..]).None?
    ensures Stripped(data).Ok? && LabelSplit(Stripped(data).value[11..]).Some? ==>
              var body := LabelSplit(Stripped(data).value[11..]).value.1;
              forall last: bytes :: IsLastLine(body, last) ==>
                if EndsWith(last, Ascii("-----")) then Parsed(data).Ok? || Parsed(data) == Err(PostEncapsulationBoundary)
                else Parsed(data) == Err(PreEncapsulationBoundary)
  {
    hide StripTrailingEol, StripSuffixes, LabelSplit, FindBoundary, IsLastLine, TrimEnd;
    BoundariesAreAscii();
    WithoutBoundary(data);
    if Stripped(data).Ok? {
      StrippedIsPreamble(data);
      if LabelSplit(Stripped(data).value[11..]).Some? {
        var body := LabelSplit(Stripped(data).value[11..]).value.1;
        TrimmedIsLastLine(body);
      }
    }
  }

  /** Both crates trim one newline off the end of a text. */
  lemma TrimmedIsLastLine(body: bytes)
    ensures var trimmed := match StripTrailingEol(body) case Some(b) => b case None => body;
            forall last: bytes :: IsLastLine(body, last) <==> last == trimmed
  {
    hide IsLastLine;
    forall last: bytes ensures IsLastLine(body, last) <==> last == TrimEnd(body) {
      LastLineIsTrimmed(body, last);
    }
  }

  /** Position of the first newline character, or the length. */
  function FirstNewline(text: bytes): (n: nat)
    ensures n <= |text|
  {
    if text == [] || text[0] == CHAR_CR || text[0] == CHAR_LF then 0 else 1 + FirstNewline(text[1..])
  }

  // ----- parsing an encoded document -----

  /** No newline character at either end. */
  ghost predicate Trimmed(text: bytes) {
    text != [] ==> text[0] != CHAR_LF && text[|text| - 1] != CHAR_CR && text[|text| - 1] != CHAR_LF
  }

  lemma FooterStarts(typeLabel: bytes, ending: LineEnding)
    ensures Footer(typeLabel, ending) != []
    ensures ending.CR? ==> Footer(typeLabel, ending)[0] == CHAR_CR
  {
  }

  lemma EndingIsEol(ending: LineEnding)
    ensures IsEol(ending.Bytes()) && (ending.Bytes() == [CHAR_CR] <==> ending.CR?)
  {
  }

  /** The text before a closing boundary with any newlines around it. */
  lemma TextOfDocument(typeLabel: bytes, text: bytes, end: bytes, last: bytes)
    requires IsEol(end) && (end == [CHAR_LF] ==> text == [] || text[|text| - 1] != CHAR_CR)
    requires last == [] || IsEol(last)
    ensures var body := text + end + POST_ENCAPSULATION_BOUNDARY + typeLabel + ENCAPSULATION_BOUNDARY_DELIMITER + last;
            TextBefore(typeLabel, body) == Ok(Encapsulation(typeLabel, text))
  {
    hide IsEol, StripTrailingEol;
    var b0 := text + end;
    var b1 := b0 + POST_ENCAPSULATION_BOUNDARY;
    var b2 := b1 + typeLabel;
    var b3 := b2 + ENCAPSULATION_BOUNDARY_DELIMITER;
    if last == [] {
      assert b3 + last == b3;
      NoEolAtEnd(b3);
    } else {
      EolIsTrailing(b3, last);
    }
    assert EndsWith(b3, ENCAPSULATION_BOUNDARY_DELIMITER) && b3[..|b3| - 5] == b2;
    assert EndsWith(b2, typeLabel) && b2[..|b2| - |typeLabel|] == b1;
    assert EndsWith(b1, POST_ENCAPSULATION_BOUNDARY) && b1[..|b1| - 9] == b0;
    var suffixes := [POST_ENCAPSULATION_BOUNDARY, typeLabel];
    assert suffixes[..1] == [POST_ENCAPSULATION_BOUNDARY];
    assert [POST_ENCAPSULATION_BOUNDARY][..0] == [];
    assert StripSuffixes(b1, suffixes[..1]) == StripSuffixes(b0, []);
    EolIsTrailing(text, end);
  }

  lemma NoEolAtEnd(s: bytes)
    requires s != [] && s[|s| - 1] == CHAR_HYPHEN
    ensures StripTrailingEol(s) == None
  {
  }

  /** Whatever has a text before its closing boundary is that text, a newline, the boundary with
      the same label, and perhaps a newline. */
  lemma BodyOfText(typeLabel: bytes, body: bytes)
    requires TextBefore(typeLabel, body).Ok?
    ensures var text := TextBefore(typeLabel, body).value.text;
            TextBefore(typeLabel, body).value.typeLabel == typeLabel &&
            exists end: bytes, last: bytes :: IsBody(typeLabel, text, end, last, body)
  {
    hide StripTrailingEol, IsEol, EndsWith;
    var trimmed := match StripTrailingEol(body) case Some(b) => b case None => body;
    var last := body[|trimmed|..];
    if StripTrailingEol(body).Some? {
      TrailingEol(body);
    } else {
      assert last == [] && body == trimmed + last;
    }
    EndsInSuffix(trimmed, ENCAPSULATION_BOUNDARY_DELIMITER);
    var b2 := trimmed[..|trimmed| - 5];
    var suffixes := [POST_ENCAPSULATION_BOUNDARY, typeLabel];
    assert suffixes[..1] == [POST_ENCAPSULATION_BOUNDARY] && [POST_ENCAPSULATION_BOUNDARY][..0] == [];
    EndsInSuffix(b2, typeLabel);
    var b1 := b2[..|b2| - |typeLabel|];
    assert StripSuffixes(b2, suffixes) == StripSuffixes(b1, suffixes[..1]);
    EndsInSuffix(b1, POST_ENCAPSULATION_BOUNDARY);
    var b0 := b1[..|b1| - 9];
    assert StripSuffixes(b1, suffixes[..1]) == StripSuffixes(b0, []) == Some(b0);
    TrailingEol(b0);
    var text := StripTrailingEol(b0).value;
    var end := b0[|text|..];
    assert IsBody(typeLabel, text, end, last, body);
  }

  lemma EndsInSuffix(s: bytes, suffix: bytes)
    requires EndsWith(s, suffix)
    ensures |suffix| <= |s| && s == s[..|s| - |suffix|] + suffix
  {
  }

  ghost predicate IsBody(typeLabel: bytes, text: bytes, end: bytes, last: bytes, body: bytes) {
    IsEol(end) && (end == [CHAR_LF] ==> text == [] || text[|text| - 1] != CHAR_CR) &&
    (last == [] || IsEol(last)) &&
    body == text + end + POST_ENCAPSULATION_BOUNDARY + typeLabel + ENCAPSULATION_BOUNDARY_DELIMITER + last
  }

  /** A document: a preamble, the boundary, a valid label that does not start with a blank, the
      delimiter, a newline, the text, a newline, the closing boundary with the same label, and
      perhaps a newline.  Newlines are as long as they can be. */
  ghost predicate IsLayout(
    pem: bytes, parsed: Encapsulation, preamble: bytes, start: bytes, end: bytes, last: bytes, body: bytes)
  {
    var typeLabel, text := parsed.typeLabel, parsed.text;
    var doc := PRE_ENCAPSULATION_BOUNDARY + (typeLabel + ENCAPSULATION_BOUNDARY_DELIMITER + start + body);
    ValidLabel(typeLabel) && !StartsWithBlank(typeLabel) &&
    IsEol(start) && (start == [CHAR_CR] ==> body == [] || body[0] != CHAR_LF) &&
    IsBody(typeLabel, text, end, last, body) &&
    pem == preamble + doc && IsPreamble(preamble, doc)
  }

  ghost predicate IsDocument(pem: bytes, parsed: Encapsulation) {
    exists preamble: bytes, start: bytes, end: bytes, last: bytes, body: bytes ::
      IsLayout(pem, parsed, preamble, start, end, last, body)
  }

  lemma LayoutIsParsed(
    pem: bytes, parsed: Encapsulation, preamble: bytes, start: bytes, end: bytes, last: bytes, body: bytes)
    requires IsLayout(pem, parsed, preamble, start, end, last, body)
    ensures Parsed(pem) == Ok(parsed)
  {
    hide IsEol, LabelSplit, TextBefore, Stripped, IsPreamble, ValidLabel;
    var typeLabel, text := parsed.typeLabel, parsed.text;
    var s := typeLabel + ENCAPSULATION_BOUNDARY_DELIMITER + start + body;
    var doc := PRE_ENCAPSULATION_BOUNDARY + s;
    PreambleIsStripped(preamble, doc);
    assert doc[|PRE_ENCAPSULATION_BOUNDARY|..] == s;
    assert s == typeLabel + ENCAPSULATION_BOUNDARY_DELIMITER + (start + body);
    SplitOfValidLabel(typeLabel, start + body);
    EolIsLeading(start, body);
    TextOfDocument(typeLabel, text, end, last);
  }

  lemma ParsedIsLayout(pem: bytes)
    requires Parsed(pem).Ok?
    ensures IsDocument(pem, Parsed(pem).value)
  {
    hide IsEol, LabelSplit, TextBefore, Stripped, IsPreamble, ValidLabel, IsBody;
    StrippedIsPreamble(pem);
    var doc := Stripped(pem).value;
    var preamble := pem[..|pem| - |doc|];
    var s := doc[|PRE_ENCAPSULATION_BOUNDARY|..];
    assert doc == PRE_ENCAPSULATION_BOUNDARY + s;
    SplitIsLabel(s);
    var (typeLabel, body) := LabelSplit(s).value;
    var start: bytes :| IsSplit(s, typeLabel, start, body);
    BodyOfText(typeLabel, body);
    var parsed := Parsed(pem).value;
    var end: bytes, last: bytes :| IsBody(typeLabel, parsed.text, end, last, body);
    assert IsLayout(pem, parsed, preamble, start, end, last, body);
  }

  /** The parser accepts exactly the documents of this layout, whichever newlines they use. */
  lemma ParsesExactlyDocuments(pem: bytes, parsed: Encapsulation)
    ensures Parsed(pem) == Ok(parsed) <==> IsDocument(pem, parsed)
  {
    hide Parsed, IsLayout;
    if Parsed(pem).Ok? {
      ParsedIsLayout(pem);
    }
    if IsDocument(pem, parsed) {
      var preamble: bytes, start: bytes, end: bytes, last: bytes, body: bytes :|
        IsLayout(pem, parsed, preamble, start, end, last, body);
      LayoutIsParsed(pem, parsed, preamble, start, end, last, body);
    }
  }

  /** Parsing finds the label and the text of a document behind any preamble, unless the
      label starts with a blank: that is refused, although the encoder accepts it. */
  lemma ParsesDocument(preamble: bytes, typeLabel: bytes, ending: LineEnding, text: bytes)
    requires ValidLabel(typeLabel) && Trimmed(text)
    requires IsPreamble(preamble, Header(typeLabel, ending) + text + Footer(typeLabel, ending))
    ensures Parsed(preamble + (Header(typeLabel, ending) + text + Footer(typeLabel, ending))) ==
            if typeLabel != [] && IsWsp(typeLabel[0]) then Err(Label) else Ok(Encapsulation(typeLabel, text))
  {
    hide LineEnding.Bytes, IsEol, LabelSplit, TextBefore, Stripped, IsPreamble;
    var doc := Header(typeLabel, ending) + text + Footer(typeLabel, ending);
    var rest := text + Footer(typeLabel, ending);
    assert doc == PRE_ENCAPSULATION_BOUNDARY +
                  (typeLabel + ENCAPSULATION_BOUNDARY_DELIMITER + (ending.Bytes() + rest));
    PreambleIsStripped(preamble, doc);
    SplitOfValidLabel(typeLabel, ending.Bytes() + rest);
    FooterStarts(typeLabel, ending);
    EndingIsEol(ending);
    EolIsLeading(ending.Bytes(), rest);
    TextOfDocument(typeLabel, text, ending.Bytes(), ending.Bytes());
    assert rest == text + ending.Bytes() + POST_ENCAPSULATION_BOUNDARY + typeLabel +
                   ENCAPSULATION_BOUNDARY_DELIMITER + ending.Bytes();
  }

  // ----- the text of an encoded document -----

  lemma {:induction false} WrappedIsTrimmed(text: bytes, width: nat, ending: LineEnding)
    requires width > 0 && NoNewlines(text)
    ensures var s := Wrapped(text, width, ending.Bytes());
            Trimmed(s) && (text != [] ==> s != [] && s[0] == text[0])
    decreases |text|
  {
    hide LineEnding.Bytes;
    if |text| > width {
      WrappedIsTrimmed(text[width..], width, ending);
      assert Wrapped(text, width, ending.Bytes())[0] == text[0];
    }
  }

  /** The first newline ends the first line. */
  lemma {:induction false} NewlineAfter(s: bytes, n: nat)
    requires n <= |s| && NoNewlines(s[..n])
    requires n < |s| ==> s[n] == CHAR_CR || s[n] == CHAR_LF
    ensures FirstNewline(s) == n
  {
    if n > 0 {
      assert s[..n][0] == s[0] && s[1..][..n - 1] == s[..n][1..];
      NewlineAfter(s[1..], n - 1);
    }
  }

  lemma DetectsWidth(text: bytes, width: nat, ending: LineEnding)
    requires width > 0 && NoNewlines(text)
    ensures FirstNewline(Wrapped(text, width, ending.Bytes())) == Min(width, |text|)
  {
    var s := Wrapped(text, width, ending.Bytes());
    NoNewlinesInParts(text, Min(width, |text|));
    assert s[..Min(width, |text|)] == text[..Min(width, |text|)];
    NewlineAfter(s, Min(width, |text|));
  }

  /** The label and the data of a document whose text is wrapped at `width`: the text must not
      be empty and must have no blank last line. */
  ghost function Payload(pem: bytes, width: nat): Option<(bytes, bytes)> {
    match Parsed(pem)
    case Err(_) => None
    case Ok(parsed) =>
      match Text(parsed.text, Some(width))
      case None => None
      case Some(text) =>
        var d := Decoded(Base64Encoding(), text);
        if parsed.text != [] && NoBlankLines(parsed.text, Some(width)) && d.Some? then Some((parsed.typeLabel, d.value))
        else None
  }

  /** The width that `new_detect_wrap` finds. */
  function DetectedWidth(pem: bytes): Result<nat, PemError> {
    match Parsed(pem)
    case Err(error) => Err(error)
    case Ok(parsed) => Ok(FirstNewline(parsed.text))
  }

  /** Decoding the encoded document, behind any preamble, returns its label and its data, at
      the width used to encode it and at the detected width, unless the label starts with a
      blank or there is no data: those documents can be encoded but not decoded. */
  lemma DocumentRoundTrip(preamble: bytes, typeLabel: bytes, ending: LineEnding, width: nat, d: bytes)
    requires ValidLabel(typeLabel) && width >= MIN_LINE_WIDTH
    requires IsPreamble(preamble, Document(typeLabel, ending, width, d))
    ensures var pem := preamble + Document(typeLabel, ending, width, d);
            var text := Wrapped(Encoded(Base64Encoding(), d), width, ending.Bytes());
            Parsed(pem) == (if StartsWithBlank(typeLabel) then Err(Label) else Ok(Encapsulation(typeLabel, text))) &&
            Payload(pem, width) == (if StartsWithBlank(typeLabel) || d == [] then None else Some((typeLabel, d)))
  {
    hide Encoded, Wrapped, Decoded, Parsed, IsPreamble, ValidLabel, Header, Footer;
    var e, eol := Base64Encoding(), ending.Bytes();
    var base64 := Encoded(e, d);
    Streaming.EncodedHasNoNewlines(e, d);
    WrappedIsTrimmed(base64, width, ending);
    ParsesDocument(preamble, typeLabel, ending, Wrapped(base64, width, eol));
    EncodedLength(e, d);
    WrappedLength(base64, width, eol);
    if d == [] {
      assert Wrapped(base64, width, eol) == [];
    } else {
      WrappedIsWrapping(base64, width, ending);
      Streaming.WrappedTextIsWellFormed(e, d, width, Wrapped(base64, width, eol));
      DecodesExactlyEncodings(e, base64, d);
    }
  }

  lemma DetectedRoundTrip(preamble: bytes, typeLabel: bytes, ending: LineEnding, width: nat, d: bytes)
    requires ValidLabel(typeLabel) && width >= MIN_LINE_WIDTH && !StartsWithBlank(typeLabel) && d != []
    requires IsPreamble(preamble, Document(typeLabel, ending, width, d))
    ensures var pem := preamble + Document(typeLabel, ending, width, d);
            DetectedWidth(pem).Ok? && DetectedWidth(pem).value >= MIN_LINE_WIDTH &&
            Payload(pem, DetectedWidth(pem).value) == Some((typeLabel, d))
  {
    hide Encoded, Decoded, Parsed, IsPreamble, ValidLabel, Header, Footer, Document, NoNewlines;
    var e, eol := Base64Encoding(), ending.Bytes();
    var base64 := Encoded(e, d);
    var text := Wrapped(base64, width, eol);
    DocumentRoundTrip(preamble, typeLabel, ending, width, d);
    Streaming.EncodedHasNoNewlines(e, d);
    DetectsWidth(base64, width, ending);
    EncodedLength(e, d);
    EncodedLenOfGroups(|d|, true);
    var detected := Min(width, |base64|);
    if width > |base64| {
      assert IsWrapping(text, base64, detected);
    } else {
      WrappedIsWrapping(base64, width, ending);
    }
    Streaming.WrappedTextIsWellFormed(e, d, detected, text);
    DecodesExactlyEncodings(e, base64, d);
  }
}
