/** Password hash strings (phc/src/lib.rs, phc/src/salt.rs, phc/src/output.rs). */
module PhcHash {
  import opened Bits
  import opened Alphabets
  import opened Codec
  import opened Decimals
  import opened PhcParams
  import opened PhcText
  import opened Wrappers

  const SALT_MAX_LENGTH: nat := 48
  const SALT_STRING_MIN_LENGTH: nat := 11
  const SALT_STRING_MAX_LENGTH: nat := 64
  const OUTPUT_MIN_LENGTH: nat := 10
  const OUTPUT_MAX_LENGTH: nat := 64

  /** `v=` */
  const VERSION_PREFIX: bytes := [118, 61]

  /** A salt in a buffer; derived equality compares the whole buffer. */
  datatype Salt = Salt(length: nat, bytes: bytes)

  /** A parsed password hash.  The output of the hash function is compared by content. */
  datatype PasswordHash = PasswordHash(
    algorithm: bytes, version: Option<u32>, params: StringBuf, salt: Option<Salt>, hash: Option<bytes>)

  /** Standard Base64 without padding. */
  function B64(): Encoding {
    Encoding(Standard(), false)
  }

  function SaltOf(d: bytes): Salt
    requires |d| <= SALT_MAX_LENGTH
  {
    Salt(|d|, d + Fill(0, SALT_MAX_LENGTH - |d|))
  }

  /** The buffer with the given text, and zeros behind it. */
  function BufferOf(text: bytes): StringBuf
    requires |text| <= PARAMS_MAX_LENGTH
  {
    StringBuf(|text|, text + Fill(0, PARAMS_MAX_LENGTH - |text|))
  }

  // ----- well-formed values -----

  ghost predicate IsParams(b: StringBuf) {
    b.length <= |b.bytes| == PARAMS_MAX_LENGTH && ParsePairs(b.bytes[..b.length]).Ok?
  }

  /** A salt of 8 to 48 bytes. */
  ghost predicate IsSalt(s: Salt) {
    8 <= s.length <= |s.bytes| == SALT_MAX_LENGTH && s == SaltOf(s.bytes[..s.length])
  }

  ghost predicate WellFormed(h: PasswordHash) {
    IsIdent(h.algorithm) && IsParams(h.params) && (h.salt.Some? ==> IsSalt(h.salt.value)) &&
    (h.hash.Some? ==> OUTPUT_MIN_LENGTH <= |h.hash.value| <= OUTPUT_MAX_LENGTH)
  }

  function ParamsOf(h: PasswordHash): bytes
    requires h.params.length <= |h.params.bytes|
  {
    h.params.bytes[..h.params.length]
  }

  // ----- printing -----

  function VersionField(h: PasswordHash): seq<bytes> {
    match h.version case None => [] case Some(n) => [VERSION_PREFIX + Digits(n)]
  }

  function ParamsField(h: PasswordHash): seq<bytes>
    requires h.params.length <= |h.params.bytes|
  {
    if ParamsOf(h) == [] then [] else [ParamsOf(h)]
  }

  function SaltField(h: PasswordHash): seq<bytes>
    requires h.salt.Some? ==> h.salt.value.length <= |h.salt.value.bytes|
  {
    match h.salt case None => [] case Some(s) => [Encoded(B64(), s.bytes[..s.length])]
  }

  /** The hash is printed only behind a salt. */
  function HashField(h: PasswordHash): seq<bytes> {
    if h.salt.Some? && h.hash.Some? then [Encoded(B64(), h.hash.value)] else []
  }

  ghost function Fields(h: PasswordHash): seq<bytes>
    requires WellFormed(h)
  {
    [[], h.algorithm] + (VersionField(h) + (ParamsField(h) + (SaltField(h) + HashField(h))))
  }

  /** The text of a password hash. */
  ghost function HashText(h: PasswordHash): bytes
    requires WellFormed(h)
  {
    Join(Fields(h), DOLLAR)
  }

  // ----- parsing -----

  predicate IsVersionField(field: bytes) {
    VERSION_PREFIX <= field && COMMA !in field
  }

  /** The number that a version denotes. */
  function VersionFrom(value: bytes): Result<u32, PhcError> {
    if |value| > VALUE_MAX_LENGTH then Err(ParamValueTooLong)
    else if !IsValue(value) || DecimalOf(value).None? then Err(ParamValueInvalid)
    else Ok(DecimalOf(value).value)
  }

  /** The version, if the first field looks like one, and the other fields. */
  function TakeVersion(fields: seq<bytes>): Result<(Option<u32>, seq<bytes>), PhcError> {
    if fields != [] && IsVersionField(fields[0]) then
      match VersionFrom(fields[0][2..])
      case Err(error) => Err(error)
      case Ok(n) => Ok((Some(n), fields[1..]))
    else Ok((None, fields))
  }

  /** The parameters that a field denotes. */
  function ParamsFrom(field: bytes): Result<StringBuf, PhcError> {
    if |field| > PARAMS_MAX_LENGTH then Err(ParamsMaxExceeded)
    else
      match ParsePairs(field)
      case Err(error) => Err(error)
      case Ok(_) => Ok(BufferOf(field))
  }

  /** The parameters, if the first field looks like them, and the other fields. */
  function TakeParams(fields: seq<bytes>): Result<(StringBuf, seq<bytes>), PhcError> {
    if fields != [] && EQUALS in fields[0] then
      match ParamsFrom(fields[0])
      case Err(error) => Err(error)
      case Ok(params) => Ok((params, fields[1..]))
    else Ok((BufferOf([]), fields))
  }

  ghost function SaltFrom(field: bytes): (r: Result<Salt, PhcError>)
    ensures r.Ok? ==> IsSalt(r.value)
  {
    if |field| < SALT_STRING_MIN_LENGTH then Err(SaltTooShort)
    else if |field| > SALT_STRING_MAX_LENGTH then Err(SaltTooLong)
    else
      match Decoded(B64(), field)
      case None => Err(PhcError.Base64(InvalidEncoding))
      case Some(d) => SaltLengths(field, d); Ok(SaltOf(d))
  }

  lemma SaltLengths(field: bytes, d: bytes)
    requires field == Encoded(B64(), d) || Decoded(B64(), field) == Some(d)
    ensures SALT_STRING_MIN_LENGTH <= |field| <= SALT_STRING_MAX_LENGTH <==> 8 <= |d| <= SALT_MAX_LENGTH
    ensures |d| <= SALT_MAX_LENGTH ==> SaltOf(d).bytes[..|d|] == d
  {
    hide Encoded, Decoded;
    DecodesExactlyEncodings(B64(), field, d);
    EncodedLength(B64(), d);
    EncodedLenOfGroups(|d|, false);
  }

  ghost function TakeSalt(fields: seq<bytes>): Result<(Option<Salt>, seq<bytes>), PhcError> {
    if fields == [] then Ok((None, []))
    else
      match SaltFrom(fields[0])
      case Err(error) => Err(error)
      case Ok(s) => Ok((Some(s), fields[1..]))
  }

  /** The output that a field denotes; its length is checked before it is decoded. */
  ghost function HashFrom(field: bytes): Result<bytes, PhcError> {
    if Codec.DecodedLen(|field|) > OUTPUT_MAX_LENGTH then Err(PhcError.Base64(InvalidLength))
    else
      match Decoded(B64(), field)
      case None => Err(PhcError.Base64(InvalidEncoding))
      case Some(d) => if |d| < OUTPUT_MIN_LENGTH then Err(OutputSize(Less, OUTPUT_MIN_LENGTH)) else Ok(d)
  }

  /** The hash, and nothing behind it. */
  ghost function TakeHash(fields: seq<bytes>): Result<Option<bytes>, PhcError> {
    if fields == [] then Ok(None)
    else
      match HashFrom(fields[0])
      case Err(error) => Err(error)
      case Ok(d) => if |fields| > 1 then Err(TrailingData) else Ok(Some(d))
  }

  /** The fields after the algorithm, or the error of the first that is wrong. */
  ghost function ParseRest(algorithm: bytes, fields: seq<bytes>): Result<PasswordHash, PhcError> {
    match TakeVersion(fields)
    case Err(error) => Err(error)
    case Ok((version, fields)) =>
      match TakeParams(fields)
      case Err(error) => Err(error)
      case Ok((params, fields)) =>
        match TakeSalt(fields)
        case Err(error) => Err(error)
        case Ok((salt, fields)) =>
          match TakeHash(fields)
          case Err(error) => Err(error)
          case Ok(hash) => Ok(PasswordHash(algorithm, version, params, salt, hash))
  }

  /** What `PasswordHash::new` makes of a text. */
  ghost function Parsed(s: bytes): Result<PasswordHash, PhcError> {
    var fields := Split(s, DOLLAR);
    if fields[0] != [] || |fields| == 1 then Err(MissingField)
    else if !IsIdent(fields[1]) then Err(ParamNameInvalid)
    else ParseRest(fields[1], fields[2..])
  }

  // ----- the fields of a printed hash -----

  /** Base64 without padding has none of the delimiters. */
  lemma Base64IsPlain(d: bytes)
    ensures var s := Encoded(B64(), d); DOLLAR !in s && EQUALS !in s && !IsVersionField(s)
  {
    hide Encoded;
    EncodedDecodes(B64(), d);
    assert !IsChar(Standard(), DOLLAR) && !IsChar(Standard(), EQUALS);
    var s := Encoded(B64(), d);
    assert |s| >= 2 ==> s[1] != VERSION_PREFIX[1];
  }

  lemma DigitsArePlain(n: u32)
    ensures DOLLAR !in Digits(n) && COMMA !in Digits(n)
  {
  }

  lemma ParamsArePlain(s: bytes)
    requires ParsePairs(s).Ok?
    ensures DOLLAR !in s
    ensures s != [] ==> EQUALS in s
  {
    hide ParsePairs, IsPair, Join, PairText, PairTexts;
    var pairs := ParsePairs(s).value;
    ParamsAreText(s, pairs);
    TextsAreFree(pairs);
    JoinContains(PairTexts(pairs), COMMA, DOLLAR);
    TextIsEmpty(pairs);
    if pairs != [] {
      FirstPair(pairs);
    }
  }

  /** A parameter text starts with its first pair. */
  lemma FirstPair(pairs: seq<Pair>)
    requires pairs != []
    ensures PairText(pairs[0]) <= ParamsText(pairs) && EQUALS in ParamsText(pairs)
  {
    hide PairText;
    var texts := PairTexts(pairs);
    assert PairText(pairs[0])[|pairs[0].name|] == EQUALS by {
      HasEquals(pairs[0]);
    }
    assert Join(texts, COMMA)[|pairs[0].name|] == texts[0][|pairs[0].name|];
  }

  lemma HasEquals(p: Pair)
    ensures |p.name| < |PairText(p)| && PairText(p)[|p.name|] == EQUALS
  {
  }

  /** The parameters that a version is mistaken for: a single pair with the name `v`. */
  lemma LooksLikeVersion(s: bytes)
    requires ParsePairs(s).Ok?
    ensures IsVersionField(s) <==> |ParsePairs(s).value| == 1 && ParsePairs(s).value[0].name == [118]
  {
    hide ParsePairs, IsPair, PairText;
    var pairs := ParsePairs(s).value;
    ParamsAreText(s, pairs);
    TextsAreFree(pairs);
    NoPairs();
    if pairs != [] {
      FirstPair(pairs);
      FirstName(pairs[0], s);
      var texts := PairTexts(pairs);
      if |pairs| > 1 {
        assert Join(texts, COMMA)[|texts[0]|] == COMMA;
      } else {
        assert Join(texts, COMMA) == texts[0];
      }
    }
  }

  lemma FirstName(p: Pair, s: bytes)
    requires IsPair(p) && PairText(p) <= s
    ensures VERSION_PREFIX <= s <==> p.name == [118]
  {
    assert s[..|PairText(p)|] == PairText(p);
    assert |p.name| >= 1 && s[0] == p.name[0] && s[|p.name|] == EQUALS;
    assert |p.name| > 1 ==> s[1] == p.name[1] != EQUALS;
    if VERSION_PREFIX <= s {
      assert s[..2] == VERSION_PREFIX;
      assert s[1] == EQUALS && s[0] == 118;
    }
  }

  // ----- the round trip -----

  /** The parameters are read as a version. */
  ghost predicate Ambiguous(h: PasswordHash)
    requires WellFormed(h)
  {
    h.version.None? && IsVersionField(ParamsOf(h))
  }

  /** What can come out of the parser. */
  ghost predicate Canonical(h: PasswordHash) {
    WellFormed(h) && h.params.ZeroTail() && (h.hash.Some? ==> h.salt.Some?) && !Ambiguous(h)
  }

  lemma BufferIsText(b: StringBuf)
    requires b.length <= |b.bytes| == PARAMS_MAX_LENGTH
    ensures b.ZeroTail() <==> b == BufferOf(b.bytes[..b.length])
  {
    var c := BufferOf(b.bytes[..b.length]);
    if b.ZeroTail() {
      assert b.bytes == c.bytes;
    } else {
      var i :| b.length <= i < |b.bytes| && b.bytes[i] != 0;
      assert c.bytes[i] == 0;
    }
  }

  lemma TakesVersion(h: PasswordHash, rest: seq<bytes>)
    requires rest == [] || !IsVersionField(rest[0]) || h.version.Some?
    ensures TakeVersion(VersionField(h) + rest) == Ok((h.version, rest))
  {
    hide Digits, DecimalOf, IsValue;
    match h.version
    case None => assert VersionField(h) + rest == rest;
    case Some(n) =>
      var field := VERSION_PREFIX + Digits(n);
      DigitsArePlain(n);
      DigitsAreValue(n);
      DecimalsAreDigits(Digits(n), n);
      assert field[2..] == Digits(n) && IsVersionField(field);
      assert (VersionField(h) + rest)[1..] == rest;
  }

  lemma TakesParams(h: PasswordHash, rest: seq<bytes>)
    requires WellFormed(h) && h.params.ZeroTail() && (rest == [] || EQUALS !in rest[0])
    ensures TakeParams(ParamsField(h) + rest) == Ok((h.params, rest))
  {
    hide ParsePairs;
    ParamsArePlain(ParamsOf(h));
    BufferIsText(h.params);
    if ParamsOf(h) == [] {
      assert ParamsField(h) + rest == rest;
    } else {
      assert (ParamsField(h) + rest)[1..] == rest;
    }
  }

  lemma TakesSalt(h: PasswordHash, rest: seq<bytes>)
    requires WellFormed(h) && h.salt.Some?
    ensures TakeSalt(SaltField(h) + rest) == Ok((h.salt, rest))
  {
    hide Encoded, Decoded;
    var d := h.salt.value.bytes[..h.salt.value.length];
    DecodesExactlyEncodings(B64(), Encoded(B64(), d), d);
    SaltLengths(Encoded(B64(), d), d);
    assert (SaltField(h) + rest)[1..] == rest;
  }

  lemma TakesHash(h: PasswordHash)
    requires WellFormed(h) && h.salt.Some?
    ensures TakeHash(HashField(h)) == Ok(h.hash)
  {
    hide Encoded, Decoded;
    if h.hash.Some? {
      DecodesExactlyEncodings(B64(), Encoded(B64(), h.hash.value), h.hash.value);
      OutputLength(Encoded(B64(), h.hash.value), h.hash.value);
    }
  }

  lemma FieldsAreFree(h: PasswordHash)
    requires WellFormed(h)
    ensures Free(Fields(h), DOLLAR)
  {
    hide Encoded, ParsePairs, Digits;
    if h.version.Some? {
      DigitsArePlain(h.version.value);
    }
    ParamsArePlain(ParamsOf(h));
    if h.salt.Some? {
      Base64IsPlain(h.salt.value.bytes[..h.salt.value.length]);
      if h.hash.Some? {
        Base64IsPlain(h.hash.value);
      }
    }
  }

  /** Every canonical hash is parsed from its text. */
  lemma PrintedIsParsed(h: PasswordHash)
    requires Canonical(h)
    ensures Parsed(HashText(h)) == Ok(h)
  {
    hide IsIdent, ParsePairs, TakeVersion, TakeParams, TakeSalt, TakeHash, Encoded, IsVersionField, Split, Join;
    FieldsAreFree(h);
    SplitsJoined(Fields(h), DOLLAR);
    var last := SaltField(h) + HashField(h);
    assert Fields(h)[2..] == VersionField(h) + (ParamsField(h) + last);
    if h.salt.Some? {
      Base64IsPlain(h.salt.value.bytes[..h.salt.value.length]);
      TakesSalt(h, HashField(h));
      TakesHash(h);
    } else {
      NoFields();
      assert last == [];
    }
    TakesVersion(h, ParamsField(h) + last);
    TakesParams(h, last);
  }

  lemma NoFields()
    ensures TakeSalt([]) == Ok((None, [])) && TakeHash([]) == Ok(None)
  {
  }

  lemma ReadVersion(fields: seq<bytes>)
    requires TakeVersion(fields).Ok?
    ensures var (version, rest) := TakeVersion(fields).value;
            fields == (match version case None => [] case Some(n) => [VERSION_PREFIX + Digits(n)]) + rest &&
            (version.None? ==> rest == [] || !IsVersionField(rest[0]))
  {
    hide Digits, DecimalOf, IsValue;
    if fields != [] && IsVersionField(fields[0]) {
      var value := fields[0][2..];
      DecimalsAreDigits(value, DecimalOf(value).value);
      assert fields[0] == VERSION_PREFIX + value;
      assert fields == [fields[0]] + fields[1..];
    } else {
      assert [] + fields == fields;
    }
  }

  lemma ReadParams(fields: seq<bytes>)
    requires TakeParams(fields).Ok?
    ensures var (params, rest) := TakeParams(fields).value;
            IsParams(params) && params.ZeroTail() &&
            fields == (if params.length == 0 then [] else [params.bytes[..params.length]]) + rest
  {
    hide ParsePairs;
    NoPairs();
    ParamsAreText([], []);
    if fields != [] && EQUALS in fields[0] {
      assert BufferOf(fields[0]).bytes[..|fields[0]|] == fields[0];
      assert fields == [fields[0]] + fields[1..];
    } else {
      assert BufferOf([]).bytes[..0] == [];
      assert [] + fields == fields;
    }
  }

  lemma ReadSaltAndHash(fields: seq<bytes>)
    requires TakeSalt(fields).Ok? && TakeHash(TakeSalt(fields).value.1).Ok?
    ensures var (salt, rest) := TakeSalt(fields).value;
            var hash := TakeHash(rest).value;
            (salt.Some? ==> IsSalt(salt.value)) &&
            (hash.Some? ==> salt.Some? && OUTPUT_MIN_LENGTH <= |hash.value| <= OUTPUT_MAX_LENGTH) &&
            fields == (match salt case None => [] case Some(s) => [Encoded(B64(), s.bytes[..s.length])]) +
                      (match hash case None => [] case Some(d) => [Encoded(B64(), d)])
  {
    hide Encoded, Decoded;
    if fields != [] {
      var d := Decoded(B64(), fields[0]).value;
      DecodesExactlyEncodings(B64(), fields[0], d);
      SaltLengths(fields[0], d);
      if |fields| > 1 {
        var out := Decoded(B64(), fields[1]).value;
        DecodesExactlyEncodings(B64(), fields[1], out);
        OutputLength(fields[1], out);
        assert fields == [fields[0]] + [fields[1]];
      } else {
        assert fields == [fields[0]] + [];
      }
    }
  }

  lemma RestIsPrinted(algorithm: bytes, fields: seq<bytes>)
    requires IsIdent(algorithm) && ParseRest(algorithm, fields).Ok?
    ensures var h := ParseRest(algorithm, fields).value;
            Canonical(h) && Fields(h) == [[], algorithm] + fields
  {
    hide IsIdent, TakeVersion, TakeParams, TakeSalt, TakeHash, Encoded, IsVersionField, IsParams, IsSalt, StringBuf.ZeroTail;
    hide Canonical, Fields;
    var h := ParseRest(algorithm, fields).value;
    ReadVersion(fields);
    var rest := TakeVersion(fields).value.1;
    ReadParams(rest);
    var last := TakeParams(rest).value.1;
    ReadSaltAndHash(last);
    ParsedFields(h, rest, last);
    assert VersionField(h) + rest == fields;
  }

  /** Whatever is parsed is canonical, and it prints as the text it was parsed from. */
  lemma ParsedIsPrinted(s: bytes)
    requires Parsed(s).Ok?
    ensures Canonical(Parsed(s).value) && HashText(Parsed(s).value) == s
  {
    hide IsIdent, ParseRest, Split, Join, WellFormed, Fields, Ambiguous;
    var fields := Split(s, DOLLAR);
    JoinsSplit(s, DOLLAR);
    RestIsPrinted(fields[1], fields[2..]);
    assert fields == [[], fields[1]] + fields[2..];
  }

  lemma ParsedFields(h: PasswordHash, rest: seq<bytes>, last: seq<bytes>)
    requires IsIdent(h.algorithm) && IsParams(h.params) && h.params.ZeroTail()
    requires h.salt.Some? ==> IsSalt(h.salt.value)
    requires h.hash.Some? ==> h.salt.Some? && OUTPUT_MIN_LENGTH <= |h.hash.value| <= OUTPUT_MAX_LENGTH
    requires h.version.None? ==> rest == [] || !IsVersionField(rest[0])
    requires rest == (if h.params.length == 0 then [] else [h.params.bytes[..h.params.length]]) + last
    requires last == (match h.salt case None => [] case Some(s) => [Encoded(B64(), s.bytes[..s.length])]) +
                     (match h.hash case None => [] case Some(d) => [Encoded(B64(), d)])
    ensures Canonical(h)
    ensures Fields(h) == [[], h.algorithm] + (VersionField(h) + rest)
  {
    hide Encoded, ParsePairs;
    assert last == SaltField(h) + HashField(h);
    assert rest == ParamsField(h) + last;
    if h.params.length > 0 {
      assert rest[0] == ParamsOf(h);
    }
  }

  /** The parser accepts exactly the texts of canonical hashes. */
  lemma ParsesExactlyPrinted(s: bytes, h: PasswordHash)
    ensures Parsed(s) == Ok(h) <==> Canonical(h) && HashText(h) == s
  {
    hide Parsed, HashText, WellFormed, Ambiguous;
    if Parsed(s).Ok? {
      ParsedIsPrinted(s);
    }
    if Canonical(h) && HashText(h) == s {
      PrintedIsParsed(h);
    }
  }

  /** Printing and parsing gives the same hash back, if and only if the buffer of the parameters
      is clean, a hash comes with a salt, and the parameters do not look like a version. */
  lemma RoundTrip(h: PasswordHash)
    requires WellFormed(h)
    ensures Parsed(HashText(h)) == Ok(h) <==>
            h.params.ZeroTail() && (h.hash.Some? ==> h.salt.Some?) &&
            !(h.version.None? && |ParsePairs(ParamsOf(h)).value| == 1 && ParsePairs(ParamsOf(h)).value[0].name == [118])
  {
    hide Parsed, HashText, ParsePairs, IsVersionField;
    ParsesExactlyPrinted(HashText(h), h);
    LooksLikeVersion(ParamsOf(h));
  }

  /** A hash that does not come back: its only parameter is read as the version. */
  lemma ParameterIsReadAsVersion()
    ensures var h := PasswordHash([97], None, BufferOf([118, 61, 49]), None, None);
            var h' := h.(version := Some(1), params := BufferOf([]));
            WellFormed(h) && Parsed(HashText(h)) == Ok(h') && h' != h
  {
    hide Parsed, BufferOf, ParsePairs;
    var text := [118, 61, 49];
    var h := PasswordHash([97], None, BufferOf(text), None, None);
    var h' := h.(version := Some(1), params := BufferOf([]));
    var p := Pair([118], [49]);
    assert [] + [p] == [p];
    TextOfOneMore([], p);
    ParamsAreText(text, [p]);
    ParamsAreText([], []);
    NoPairs();
    TextOfBuffer(text);
    TextOfBuffer([]);
    assert Digits(1) == [49] && VERSION_PREFIX + [49] == text;
    assert Fields(h) == [[], [97], text] == Fields(h');
    PrintedIsParsed(h');
  }

  lemma TextOfBuffer(text: bytes)
    requires |text| <= PARAMS_MAX_LENGTH
    ensures var b := BufferOf(text);
            b.length == |text| && |b.bytes| == PARAMS_MAX_LENGTH && b.bytes[..|text|] == text && b.ZeroTail()
  {
  }

  // ----- the text in characters -----

  /** Every field behind a dollar sign. */
  function Prefixed(fields: seq<bytes>): bytes {
    if fields == [] then [] else Ascii("$") + fields[0] + Prefixed(fields[1..])
  }

  lemma {:induction false} PrefixedConcat(a: seq<bytes>, b: seq<bytes>)
    ensures Prefixed(a + b) == Prefixed(a) + Prefixed(b)
  {
    hide Prefixed;
    PrefixedStep(a);
    if a == [] {
      assert a + b == b && [] + Prefixed(b) == Prefixed(b);
    } else {
      PrefixedStep(a + b);
      PrefixedConcat(a[1..], b);
      assert (a + b)[1..] == a[1..] + b;
      ThreeParts(Ascii("$") + a[0], Prefixed(a[1..]), Prefixed(b));
    }
  }

  lemma ThreeParts(a: bytes, b: bytes, c: bytes)
    ensures a + (b + c) == a + b + c
  {
  }

  lemma PrefixedStep(fields: seq<bytes>)
    ensures Prefixed(fields) == if fields == [] then [] else Ascii("$") + fields[0] + Prefixed(fields[1..])
  {
  }

  lemma {:induction false} JoinIsPrefixed(first: bytes, fields: seq<bytes>)
    ensures Join([first] + fields, DOLLAR) == first + Prefixed(fields)
    decreases |fields|
  {
    hide Prefixed, Join;
    assert ([first] + fields)[1..] == fields && Ascii("$") == [DOLLAR];
    PrefixedStep(fields);
    JoinStep([first] + fields);
    if fields != [] {
      JoinIsPrefixed(fields[0], fields[1..]);
      assert fields == [fields[0]] + fields[1..];
      Regrouped(first, [DOLLAR], fields[0], Prefixed(fields[1..]));
    } else {
      assert [first] + fields == [first] && first + [] == first;
    }
  }

  lemma Regrouped(a: bytes, b: bytes, c: bytes, d: bytes)
    ensures a + b + (c + d) == a + (b + c + d)
  {
  }

  lemma JoinStep(fields: seq<bytes>)
    requires fields != []
    ensures Join(fields, DOLLAR) == if |fields| == 1 then fields[0] else fields[0] + [DOLLAR] + Join(fields[1..], DOLLAR)
  {
  }

  lemma PrefixedField(field: bytes)
    ensures Prefixed([]) == [] && Prefixed([field]) == Ascii("$") + field
  {
    assert [field][1..] == [];
  }

  /** A password hash in characters, as in `$argon2id$v=19$m=19456,t=2$c2FsdHNhbHQ$aGFzaA`: the fields
      that are present, each behind a dollar sign, in unpadded standard Base64 if they are bytes. */
  lemma HashInCharacters(h: PasswordHash)
    requires WellFormed(h)
    ensures var b64 := Encoding(Standard(), false);
            var version := match h.version case None => [] case Some(n) => Ascii("$v=") + Digits(n);
            var params := if ParamsOf(h) == [] then [] else Ascii("$") + ParamsOf(h);
            var salt := if h.salt.None? then []
                        else Ascii("$") + Encoded(b64, h.salt.value.bytes[..h.salt.value.length]);
            var hash := if h.salt.None? || h.hash.None? then [] else Ascii("$") + Encoded(b64, h.hash.value);
            HashText(h) == Ascii("$") + h.algorithm + (version + (params + (salt + hash)))
  {
    hide Encoded, IsIdent, ParsePairs, Digits, Join, Prefixed;
    var version, params, salt, hash := VersionField(h), ParamsField(h), SaltField(h), HashField(h);
    var rest := version + (params + (salt + hash));
    assert Fields(h) == [[]] + ([h.algorithm] + rest);
    JoinIsPrefixed([], [h.algorithm] + rest);
    PrefixedConcat([h.algorithm], rest);
    PrefixedConcat(version, params + (salt + hash));
    PrefixedConcat(params, salt + hash);
    PrefixedConcat(salt, hash);
    PrefixedField(h.algorithm);
    PrefixedField(ParamsOf(h));
    if h.version.Some? {
      PrefixedField(VERSION_PREFIX + Digits(h.version.value));
      assert Ascii("$") + VERSION_PREFIX == Ascii("$v=");
      ThreeParts(Ascii("$"), VERSION_PREFIX, Digits(h.version.value));
    }
    if h.salt.Some? {
      PrefixedField(salt[0]);
      if h.hash.Some? {
        PrefixedField(hash[0]);
      }
    }
  }

  // ----- texts that are refused -----

  /** A text that does not start with a dollar sign lacks a field; the identifier behind it comes
      next. */
  lemma WhyNoAlgorithm(s: bytes)
    ensures Parsed(s) == Err(MissingField) <==> s == [] || s[0] != '$' as int
    ensures s != [] && s[0] == '$' as int && !IsIdent(Before(s[1..], '$' as int)) ==> Parsed(s) == Err(ParamNameInvalid)
  {
    hide ParseRest, IsIdent;
    OnlyPiece();
    FirstFields(s);
    if s != [] && s[0] == DOLLAR {
      FirstFields(s[1..]);
      if Parsed(s).Err? && IsIdent(Split(s, DOLLAR)[1]) {
        OtherErrors(Split(s, DOLLAR)[1], Split(s, DOLLAR)[2..]);
      }
    }
  }

  lemma FirstFields(s: bytes)
    ensures Split(s, DOLLAR)[0] == Before(s, DOLLAR)
    ensures if s != [] && s[0] == DOLLAR then Split(s, DOLLAR) == [[]] + Split(s[1..], DOLLAR)
            else if s == [] then Split(s, DOLLAR) == [[]]
            else Split(s, DOLLAR)[0] != []
  {
  }

  lemma {:induction false} PairErrors(pieces: seq<bytes>)
    ensures ParseAll(pieces).Err? ==> ParseAll(pieces).error in {ParamNameInvalid, ParamValueInvalid, ParamValueTooLong}
  {
    hide IsIdent, IsValue, Split;
    if pieces != [] {
      PairErrors(pieces[1..]);
    }
  }

  lemma OtherErrors(algorithm: bytes, fields: seq<bytes>)
    ensures ParseRest(algorithm, fields) != Err(MissingField)
  {
    hide DecimalOf, IsValue, ParseAll, Decoded, Split, IsVersionField;
    forall s: bytes ensures ParsePairs(s) != Err(MissingField) {
      PairErrors(Split(s, COMMA));
    }
  }

  /** The fields of a text that starts with an algorithm. */
  lemma ParsedFromFields(algorithm: bytes, fields: seq<bytes>)
    requires IsIdent(algorithm) && Free(fields, DOLLAR)
    ensures Parsed(Ascii("$") + algorithm + Prefixed(fields)) == ParseRest(algorithm, fields)
  {
    hide ParseRest, Split, Prefixed, Join;
    var all := [[], algorithm] + fields;
    assert all == [[]] + ([algorithm] + fields);
    JoinIsPrefixed([], [algorithm] + fields);
    PrefixedConcat([algorithm], fields);
    PrefixedField(algorithm);
    assert [] + (Ascii("$") + algorithm + Prefixed(fields)) == Ascii("$") + algorithm + Prefixed(fields);
    NoDollar(algorithm);
    assert Free(all, DOLLAR);
    SplitsJoined(all, DOLLAR);
    assert all[2..] == fields;
  }

  lemma NoDollar(algorithm: bytes)
    requires IsIdent(algorithm)
    ensures DOLLAR !in algorithm
  {
  }

  /** The first field that is wrong decides: behind any valid fields, a wrong version, wrong
      parameters, a wrong salt, a wrong hash, and a field too many. */
  lemma FirstWrongField(h: PasswordHash, wrong: bytes, more: seq<bytes>)
    requires WellFormed(h) && h.params.ZeroTail() && h.salt.Some?
    requires Free([wrong] + more, DOLLAR)
    ensures '=' as int !in wrong && SaltFrom(wrong).Err? && !Ambiguous(h) ==>
              ParseRest(h.algorithm, VersionField(h) + (ParamsField(h) + ([wrong] + more))) == Err(SaltFrom(wrong).error)
    ensures !Ambiguous(h) && HashFrom(wrong).Err? ==>
              ParseRest(h.algorithm, VersionField(h) + (ParamsField(h) + (SaltField(h) + ([wrong] + more)))) ==
              Err(HashFrom(wrong).error)
    ensures !Ambiguous(h) && h.hash.Some? ==>
              ParseRest(h.algorithm,
                        VersionField(h) + (ParamsField(h) + (SaltField(h) + (HashField(h) + ([wrong] + more))))) ==
              Err(TrailingData)
    ensures '=' as int in wrong && ParamsFrom(wrong).Err? && (h.version.Some? || !IsVersionField(wrong)) ==>
              ParseRest(h.algorithm, VersionField(h) + ([wrong] + more)) == Err(ParamsFrom(wrong).error)
    ensures ',' as int !in wrong && VersionFrom(wrong).Err? ==>
              ParseRest(h.algorithm, [Ascii("v=") + wrong] + more) == Err(VersionFrom(wrong).error)
  {
    hide TakeVersion, TakeParams, TakeSalt, TakeHash, SaltFrom, HashFrom, ParamsFrom, VersionFrom, IsVersionField;
    hide ParsePairs, IsIdent, Encoded;
    var next := [wrong] + more;
    Base64IsPlain(h.salt.value.bytes[..h.salt.value.length]);
    NextIsWrong(wrong, more);
    if '=' as int !in wrong && !Ambiguous(h) {
      WithoutEquals(wrong);
      TakesVersion(h, ParamsField(h) + next);
      TakesParams(h, next);
    }
    if !Ambiguous(h) {
      TakesVersion(h, ParamsField(h) + (SaltField(h) + next));
      TakesParams(h, SaltField(h) + next);
      TakesSalt(h, next);
      TakesVersion(h, ParamsField(h) + (SaltField(h) + (HashField(h) + next)));
      TakesParams(h, SaltField(h) + (HashField(h) + next));
      TakesSalt(h, HashField(h) + next);
      OneHash(h, next);
    }
    if h.version.Some? || !IsVersionField(wrong) {
      TakesVersion(h, next);
    }
  }

  lemma WithoutEquals(field: bytes)
    ensures IsVersionField(field) ==> EQUALS in field
  {
    assert VERSION_PREFIX <= field ==> field[1] == VERSION_PREFIX[1];
  }

  /** What the next optional field makes of a field. */
  lemma NextIsWrong(wrong: bytes, more: seq<bytes>)
    ensures SaltFrom(wrong).Err? ==> TakeSalt([wrong] + more) == Err(SaltFrom(wrong).error)
    ensures HashFrom(wrong).Err? ==> TakeHash([wrong] + more) == Err(HashFrom(wrong).error)
    ensures EQUALS in wrong && ParamsFrom(wrong).Err? ==> TakeParams([wrong] + more) == Err(ParamsFrom(wrong).error)
    ensures COMMA !in wrong && VersionFrom(wrong).Err? ==>
              TakeVersion([Ascii("v=") + wrong] + more) == Err(VersionFrom(wrong).error)
  {
    hide SaltFrom, HashFrom, ParamsFrom, VersionFrom;
    var field := Ascii("v=") + wrong;
    assert Ascii("v=") == VERSION_PREFIX && field[2..] == wrong;
    assert field[..2] == VERSION_PREFIX;
    assert COMMA !in wrong ==> COMMA !in field;
  }

  lemma OneHash(h: PasswordHash, next: seq<bytes>)
    requires WellFormed(h) && h.salt.Some? && next != []
    ensures h.hash.Some? ==> TakeHash(HashField(h) + next) == Err(TrailingData)
  {
    hide Encoded, Decoded;
    if h.hash.Some? {
      TakesHash(h);
      assert (HashField(h) + next)[0] == HashField(h)[0];
    }
  }

  /** What is wrong with a version, parameters, a salt or a hash. */
  lemma WhyNoField(field: bytes)
    ensures |field| > 64 ==> VersionFrom(field) == Err(ParamValueTooLong)
    ensures |field| <= 64 && DecimalOf(field).None? ==> VersionFrom(field) == Err(ParamValueInvalid)
    ensures |field| > 127 ==> ParamsFrom(field) == Err(ParamsMaxExceeded)
    ensures |field| <= 127 && ParsePairs(field).Err? ==> ParamsFrom(field) == Err(ParsePairs(field).error)
    ensures |field| < 11 ==> SaltFrom(field) == Err(SaltTooShort)
    ensures |field| > 64 ==> SaltFrom(field) == Err(SaltTooLong)
    ensures 11 <= |field| <= 64 && Decoded(Encoding(Standard(), false), field).None? ==>
              SaltFrom(field) == Err(PhcError.Base64(InvalidEncoding))
    ensures |field| > 86 || Decoded(Encoding(Standard(), false), field).None? ==> HashFrom(field).Err?
    ensures |field| > 86 ==> HashFrom(field) == Err(PhcError.Base64(InvalidLength))
    ensures |field| <= 86 && Decoded(Encoding(Standard(), false), field).None? ==>
              HashFrom(field) == Err(PhcError.Base64(InvalidEncoding))
    ensures |field| < 14 && Decoded(Encoding(Standard(), false), field).Some? ==>
              HashFrom(field) == Err(OutputSize(Less, 10))
  {
    hide Decoded, ParsePairs, DecimalOf, IsValue;
    LengthOfOutput(|field|);
    if Decoded(B64(), field).Some? {
      OutputLength(field, Decoded(B64(), field).value);
    }
  }

  lemma LengthOfOutput(n: nat)
    ensures Codec.DecodedLen(n) > 64 <==> n > 86
    ensures Codec.DecodedLen(n) < 10 <==> n < 14
  {
  }

  // ----- the parser and the printer -----

  method ParseSalt(b64: bytes) returns (r: Result<Salt, PhcError>)
    ensures r == SaltFrom(b64)
  {
    hide Encoded, Decoded;
    if |b64| < SALT_STRING_MIN_LENGTH {
      return Err(SaltTooShort);
    }
    if |b64| > SALT_STRING_MAX_LENGTH {
      return Err(SaltTooLong);
    }
    SaltFits(b64);
    var bytes := new u8[SALT_MAX_LENGTH](i => 0);
    var length := Codec.Decode(B64(), b64, bytes, 0, bytes.Length);
    if length.Err? {
      assert length == if length.error.InvalidLength? then Err(InvalidLength) else Err(InvalidEncoding);
      return Err(PhcError.Base64(length.error));
    }
    var n := length.value;
    assert bytes[0..0 + n] == bytes[..n];
    assert bytes[n..] == Fill(0, SALT_MAX_LENGTH - n);
    assert bytes[..] == bytes[..n] + Fill(0, SALT_MAX_LENGTH - n);
    r := Ok(Salt(n, bytes[..]));
  }

  /** `Output::decode`. */
  method DecodeOutput(input: bytes) returns (r: Result<bytes, PhcError>)
    ensures r == HashFrom(input)
  {
    hide Encoded, Decoded;
    var bytes := new u8[OUTPUT_MAX_LENGTH];
    var length := Codec.Decode(B64(), input, bytes, 0, bytes.Length);
    if length.Err? {
      assert length == if length.error.InvalidLength? then Err(InvalidLength) else Err(InvalidEncoding);
      return Err(PhcError.Base64(length.error));
    }
    var output := bytes[0..length.value];
    if |output| < OUTPUT_MIN_LENGTH {
      return Err(OutputSize(Less, OUTPUT_MIN_LENGTH));
    }
    r := Ok(output);
  }

  /** Salts of at most 64 characters fit into the buffer. */
  lemma SaltFits(b64: bytes)
    requires |b64| <= SALT_STRING_MAX_LENGTH
    ensures Codec.DecodedLen(UnpaddedLen(B64(), b64)) <= SALT_MAX_LENGTH
  {
  }

  /** The length of an output is known before it is decoded. */
  lemma OutputLength(field: bytes, d: bytes)
    requires field == Encoded(B64(), d) || Decoded(B64(), field) == Some(d)
    ensures Codec.DecodedLen(|field|) == |d|
  {
    hide Encoded, Decoded;
    DecodesExactlyEncodings(B64(), field, d);
    EncodedDecodes(B64(), d);
  }

  /** `PasswordHash::new`: the fields are read one after the other, and an optional field that
      does not look right is left for the next one. */
  method Parse(s: bytes) returns (r: Result<PasswordHash, PhcError>)
    ensures r == Parsed(s)
  {
    hide IsIdent, ParseRest, Split;
    if s == [] {
      OnlyPiece();
      return Err(MissingField);
    }
    var fields := new Pieces(s, DOLLAR);
    var beginning := fields.Next();
    if beginning.value != [] {
      return Err(MissingField);
    }
    var second := fields.Next();
    if second.None? {
      return Err(MissingField);
    }
    var algorithm := NewIdent(second.value);
    if algorithm.Err? {
      return Err(algorithm.error);
    }
    ghost var all := fields.Remaining();
    assert all == Split(s, DOLLAR)[2..];
    r := ParseFields(algorithm.value, fields);
  }

  lemma OnlyPiece()
    ensures Split([], DOLLAR) == [[]]
  {
  }

  /** The fields ahead: the one that has been read but not used, and those that have not been read. */
  function Ahead(next: Option<bytes>, rest: seq<bytes>): seq<bytes> {
    match next case None => rest case Some(field) => [field] + rest
  }

  method ParseFields(algorithm: bytes, fields: Pieces) returns (r: Result<PasswordHash, PhcError>)
    requires fields.sep == DOLLAR
    modifies fields
    ensures r == ParseRest(algorithm, old(fields.Remaining()))
  {
    hide Pieces.Remaining, TakeVersion, TakeParams, TakeSalt, TakeHash;
    ghost var all := fields.Remaining();
    var nextField := fields.Next();
    assert Ahead(nextField, fields.Remaining()) == all;
    var version := FieldIsVersion(fields, nextField);
    if version.Err? {
      return Err(version.error);
    }
    var params := FieldIsParams(fields, version.value.1);
    if params.Err? {
      return Err(params.error);
    }
    var last := SaltAndHash(fields, params.value.1);
    if last.Err? {
      return Err(last.error);
    }
    r := Ok(PasswordHash(algorithm, version.value.0, params.value.0, last.value.0, last.value.1));
  }

  /** The version, if the field looks like one; otherwise the field is left for the parameters. */
  method FieldIsVersion(fields: Pieces, first: Option<bytes>) returns (r: Result<(Option<u32>, Option<bytes>), PhcError>)
    requires first.None? ==> fields.Remaining() == []
    modifies fields
    ensures match r
            case Err(error) => TakeVersion(Ahead(first, old(fields.Remaining()))) == Err(error)
            case Ok((version, next)) =>
              TakeVersion(Ahead(first, old(fields.Remaining()))) == Ok((version, Ahead(next, fields.Remaining()))) &&
              (next.None? ==> fields.Remaining() == [])
  {
    hide VersionFrom, Pieces.Remaining;
    ghost var rest := fields.Remaining();
    var version, nextField := None, first;
    if first.Some? {
      assert ([first.value] + rest)[1..] == rest;
      if IsVersionField(first.value) {
        var number := ParseVersion(first.value);
        if number.Err? {
          return Err(number.error);
        }
        version := Some(number.value);
        nextField := None;
      }
    }
    if nextField.None? {
      nextField := fields.Next();
      assert Ahead(nextField, fields.Remaining()) == rest;
    }
    r := Ok((version, nextField));
  }

  /** The parameters, if the field has an equals sign; otherwise the field is left for the salt. */
  method FieldIsParams(fields: Pieces, first: Option<bytes>) returns (r: Result<(StringBuf, Option<bytes>), PhcError>)
    requires first.None? ==> fields.Remaining() == []
    modifies fields
    ensures match r
            case Err(error) => TakeParams(Ahead(first, old(fields.Remaining()))) == Err(error)
            case Ok((params, next)) =>
              TakeParams(Ahead(first, old(fields.Remaining()))) == Ok((params, Ahead(next, fields.Remaining()))) &&
              (next.None? ==> fields.Remaining() == [])
  {
    hide ParsePairs, Pieces.Remaining;
    ghost var rest := fields.Remaining();
    var params, nextField := BufferOf([]), first;
    if first.Some? {
      assert ([first.value] + rest)[1..] == rest;
      if EQUALS in first.value {
        var parsed := ParamsString.FromStr(first.value);
        if parsed.Err? {
          return Err(parsed.error);
        }
        params := parsed.value.Snapshot();
        assert params.bytes[..params.length] == first.value;
        BufferIsText(params);
        nextField := None;
      }
    }
    if nextField.None? {
      nextField := fields.Next();
      assert Ahead(nextField, fields.Remaining()) == rest;
    }
    r := Ok((params, nextField));
  }

  /** The salt and the hash, and nothing behind them. */
  method SaltAndHash(fields: Pieces, first: Option<bytes>) returns (r: Result<(Option<Salt>, Option<bytes>), PhcError>)
    requires first.None? ==> fields.Remaining() == []
    modifies fields
    ensures var taken := TakeSalt(Ahead(first, old(fields.Remaining())));
            r == if taken.Err? then Err(taken.error)
                 else
                   var hash := TakeHash(taken.value.1);
                   if hash.Err? then Err(hash.error) else Ok((taken.value.0, hash.value))
  {
    hide SaltFrom, HashFrom, Pieces.Remaining;
    ghost var rest := fields.Remaining();
    var salt, hash := None, None;
    if first.Some? {
      assert ([first.value] + rest)[1..] == rest;
      var parsed := ParseSalt(first.value);
      if parsed.Err? {
        return Err(parsed.error);
      }
      salt := Some(parsed.value);
    }
    var field := fields.Next();
    if field.Some? {
      var decoded := DecodeOutput(field.value);
      if decoded.Err? {
        return Err(decoded.error);
      }
      hash := Some(decoded.value);
    }
    var extra := fields.Next();
    if extra.Some? {
      return Err(TrailingData);
    }
    r := Ok((salt, hash));
  }

  /** The number after `v=`. */
  method ParseVersion(field: bytes) returns (r: Result<u32, PhcError>)
    requires VERSION_PREFIX <= field
    ensures r == VersionFrom(field[2..])
  {
    hide DecimalOf;
    var value := NewValue(field[2..]);
    if value.Err? {
      return Err(value.error);
    }
    r := ParseDecimal(value.value);
  }

  /** Base64 text in a buffer of the given size. */
  method EncodeB64(d: bytes, capacity: nat) returns (s: bytes)
    requires |Encoded(B64(), d)| <= capacity
    ensures s == Encoded(B64(), d)
  {
    hide Encoded;
    var buffer := new u8[capacity];
    var length := Codec.Encode(B64(), d, buffer, 0, capacity);
    s := buffer[0..length.value];
  }

  /** `Display`: piece by piece. */
  method Display(h: PasswordHash) returns (s: bytes)
    requires WellFormed(h)
    ensures s == HashText(h)
  {
    hide Encoded, IsIdent, ParsePairs, Digits, Join;
    ghost var fields := [[], h.algorithm];
    s := [DOLLAR] + h.algorithm;
    JoinStart(h.algorithm);
    if h.version.Some? {
      var field := VERSION_PREFIX + Digits(h.version.value);
      s := s + [DOLLAR] + field;
      JoinAppend(fields, DOLLAR, field);
      fields := fields + [field];
    }
    ghost var start := fields;
    assert start == [[], h.algorithm] + VersionField(h);
    if ParamsOf(h) != [] {
      s := s + [DOLLAR] + ParamsOf(h);
      JoinAppend(fields, DOLLAR, ParamsOf(h));
      fields := fields + [ParamsOf(h)];
    }
    ghost var middle := fields;
    assert middle == start + ParamsField(h);
    if h.salt.Some? {
      var d := h.salt.value.bytes[..h.salt.value.length];
      SaltLengths(Encoded(B64(), d), d);
      var salt := EncodeB64(d, SALT_STRING_MAX_LENGTH);
      s := s + [DOLLAR] + salt;
      JoinAppend(fields, DOLLAR, salt);
      fields := fields + [salt];
      if h.hash.Some? {
        EncodedLength(B64(), h.hash.value);
        EncodedLenOfGroups(|h.hash.value|, false);
        var hash := EncodeB64(h.hash.value, 86);
        s := s + [DOLLAR] + hash;
        JoinAppend(fields, DOLLAR, hash);
        fields := fields + [hash];
      }
    }
    assert fields == middle + (SaltField(h) + HashField(h));
    InOrder([[], h.algorithm], VersionField(h), ParamsField(h), SaltField(h) + HashField(h));
  }

  lemma InOrder(a: seq<bytes>, b: seq<bytes>, c: seq<bytes>, d: seq<bytes>)
    ensures a + b + c + d == a + (b + (c + d))
  {
  }

  lemma JoinStart(algorithm: bytes)
    ensures Join([[], algorithm], DOLLAR) == [DOLLAR] + algorithm
  {
    assert [[], algorithm][1..] == [algorithm];
  }
}
