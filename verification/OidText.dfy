/** The dotted text form of object identifiers (const-oid/src/parser.rs, const-oid/src/lib.rs). */
module OidText {
  import opened Bits
  import opened Decimals
  import opened ObjectIdentifiers
  import opened OidEncoder
  import opened Wrappers

  // ----- parsing -----

  /** The next value of the current arc, or none if it is no longer a 32-bit number. */
  function AddDigit(current: Option<u32>, digit: u8): Option<u32>
    requires digit < 10
  {
    var arc := match current case Some(a) => a case None => 0;
    if arc * 10 > MAX_ARC then None
    else if arc * 10 + digit > MAX_ARC then None
    else Some(arc * 10 + digit)
  }

  /** `parse_bytes`: the state is the arc in progress and the encoder. */
  function ParseBytes(current: Option<u32>, e: Encoder, s: bytes): (r: Result<Encoder, OidError>)
    requires e.Valid()
    ensures r.Ok? ==> r.value.Valid()
    decreases |s|
  {
    if s == [] then
      match current
      case Some(arc) => Arc(e, arc)
      case None => Err(TrailingDot)
    else if IsDigit(s[0]) then
      match AddDigit(current, s[0] - ZERO)
      case None => Err(ArcTooBig)
      case Some(arc) => ParseBytes(Some(arc), e, s[1..])
    else if s[0] == DOT then
      match current
      case None => Err(RepeatedDot)
      case Some(arc) =>
        if s[1..] == [] then Err(TrailingDot)
        else
          match Arc(e, arc)
          case Err(error) => Err(error)
          case Ok(next) => ParseBytes(None, next, s[1..])
    else Err(DigitExpected(s[0]))
  }

  /** `ObjectIdentifier::new`. */
  function Parse(s: bytes): (r: Result<ObjectIdentifier, OidError>)
    ensures r.Ok? ==> r.value.Valid()
  {
    if s == [] then Err(Empty)
    else if !IsDigit(s[0]) then Err(DigitExpected(s[0]))
    else
      match ParseBytes(None, OidEncoder.New(), s)
      case Err(error) => Err(error)
      case Ok(e) => Finish(e)
  }

  // ----- printing -----

  /** The arcs in decimal, separated by dots. */
  function Text(xs: seq<u32>): bytes {
    if xs == [] then []
    else if |xs| == 1 then Digits(xs[0])
    else Digits(xs[0]) + [DOT] + Text(xs[1..])
  }

  // ----- parsing what was printed -----

  /** Digits are read into the arc in progress. */
  lemma {:induction false} DigitsAreRead(before: bytes, s: bytes, e: Encoder, rest: bytes)
    requires e.Valid() && AllDigits(before) && AllDigits(s) && AllDigits(before + s) && Value(before + s) <= MAX_ARC
    requires before + s != []
    requires AllDigits(before) && Value(before) <= MAX_ARC
    ensures ParseBytes(if before == [] then None else Some(Value(before)), e, s + rest) ==
            ParseBytes(Some(Value(before + s)), e, rest)
    decreases |s|
  {
    hide Value, ParseBytes;
    if s == [] {
      assert before + s == before && s + rest == rest;
    } else {
      var longer := before + [s[0]];
      assert longer + s[1..] == before + s;
      assert (s + rest)[1..] == s[1..] + rest;
      ValueAppend(before, s[0]);
      ValueOfPrefix(before + s, |longer|);
      assert (before + s)[..|longer|] == longer;
      NoDigits();
      DigitIsRead(if before == [] then None else Some(Value(before)), e, s + rest);
      DigitsAreRead(longer, s[1..], e, rest);
    }
  }

  lemma NoDigits()
    ensures Value([]) == 0
  {
  }

  lemma DigitIsRead(current: Option<u32>, e: Encoder, s: bytes)
    requires e.Valid() && s != [] && IsDigit(s[0])
    ensures ParseBytes(current, e, s) ==
            if AddDigit(current, s[0] - ZERO).None? then Err(ArcTooBig)
            else ParseBytes(AddDigit(current, s[0] - ZERO), e, s[1..])
  {
  }

  lemma DotIsRead(arc: u32, e: Encoder, s: bytes)
    requires e.Valid() && s != [] && s[0] == DOT && s[1..] != []
    ensures ParseBytes(Some(arc), e, s) ==
            if Arc(e, arc).Err? then Err(Arc(e, arc).error) else ParseBytes(None, Arc(e, arc).value, s[1..])
  {
  }

  lemma EndIsRead(arc: u32, e: Encoder)
    requires e.Valid()
    ensures ParseBytes(Some(arc), e, []) == Arc(e, arc)
  {
  }

  lemma NumberIsRead(arc: u32, e: Encoder, rest: bytes)
    requires e.Valid()
    ensures ParseBytes(None, e, Digits(arc) + rest) == ParseBytes(Some(arc), e, rest)
  {
    hide ParseBytes, Digits, Value;
    ValueOfDigits(arc);
    NoDigits();
    assert [] + Digits(arc) == Digits(arc);
    DigitsAreRead([], Digits(arc), e, rest);
  }

  /** Printed arcs are fed to the encoder one after the other. */
  lemma {:induction false} TextIsRead(xs: seq<u32>, e: Encoder)
    requires e.Valid() && xs != []
    ensures Text(xs) != [] && IsDigit(Text(xs)[0])
    ensures ParseBytes(None, e, Text(xs)) == Feed(e, xs)
    decreases |xs|
  {
    hide ParseBytes, Digits, Arc, Feed;
    FeedStep(e, xs);
    if |xs| == 1 {
      assert Digits(xs[0]) + [] == Digits(xs[0]);
      NumberIsRead(xs[0], e, []);
      EndIsRead(xs[0], e);
      assert xs[1..] == [];
      if Arc(e, xs[0]).Ok? {
        FeedStep(Arc(e, xs[0]).value, []);
      }
    } else {
      var rest := [DOT] + Text(xs[1..]);
      assert Text(xs) == Digits(xs[0]) + rest;
      assert rest[1..] == Text(xs[1..]);
      NumberIsRead(xs[0], e, rest);
      if Arc(e, xs[0]).Ok? {
        TextIsRead(xs[1..], Arc(e, xs[0]).value);
      } else {
        TextIsRead(xs[1..], e);
      }
      DotIsRead(xs[0], e, rest);
    }
  }

  /** Parsing printed arcs gives what building from the arcs gives, in success and in failure. */
  lemma ParsedTextIsBuilt(xs: seq<u32>)
    ensures Parse(Text(xs)) == Built(xs)
  {
    hide ParseBytes, Feed, Arc;
    FeedStep(OidEncoder.New(), xs);
    if xs != [] {
      TextIsRead(xs, OidEncoder.New());
    }
  }

  /** The text, arc by arc: decimal numbers with dots between them. */
  lemma {:induction false} TextByArc(xs: seq<u32>, arc: u32)
    ensures Text([arc]) == Digits(arc)
    ensures xs != [] ==> Text(xs + [arc]) == Text(xs) + Ascii(".") + Digits(arc)
  {
    hide Digits;
    if |xs| > 1 {
      TextByArc(xs[1..], arc);
      assert (xs + [arc])[1..] == xs[1..] + [arc];
    } else if |xs| == 1 {
      assert (xs + [arc])[1..] == [arc];
    }
  }

  // ----- texts that are refused -----

  /** The text of arcs is read up to the last number. */
  lemma {:induction false} TextIsReadUpTo(xs: seq<u32>, e: Encoder, rest: bytes)
    requires e.Valid() && xs != [] && Feed(e, xs[..|xs| - 1]).Ok?
    ensures Text(xs) != [] && IsDigit(Text(xs)[0])
    ensures ParseBytes(None, e, Text(xs) + rest) ==
            ParseBytes(Some(xs[|xs| - 1]), Feed(e, xs[..|xs| - 1]).value, rest)
    decreases |xs|
  {
    hide ParseBytes, Digits, Arc, Feed;
    FeedStep(e, xs[..|xs| - 1]);
    if |xs| == 1 {
      NumberIsRead(xs[0], e, rest);
    } else {
      var more := [DOT] + (Text(xs[1..]) + rest);
      assert Text(xs) + rest == Digits(xs[0]) + more;
      assert more[1..] == Text(xs[1..]) + rest;
      NumberIsRead(xs[0], e, more);
      assert xs[..|xs| - 1][1..] == xs[1..][..|xs| - 2];
      TextIsReadUpTo(xs[1..], Arc(e, xs[0]).value, rest);
      DotIsRead(xs[0], e, more);
    }
  }

  /** Digits that denote too large a number. */
  lemma {:induction false} DigitsAreTooMany(before: bytes, s: bytes, e: Encoder, rest: bytes)
    requires e.Valid() && AllDigits(before) && AllDigits(s) && AllDigits(before + s)
    requires Value(before) <= MAX_ARC < Value(before + s)
    ensures ParseBytes(if before == [] then None else Some(Value(before)), e, s + rest) == Err(ArcTooBig)
    decreases |s|
  {
    hide Value, ParseBytes;
    assert s == [] ==> before + s == before;
    var longer := before + [s[0]];
    assert longer + s[1..] == before + s && (s + rest)[1..] == s[1..] + rest;
    ValueAppend(before, s[0]);
    NoDigits();
    DigitIsRead(if before == [] then None else Some(Value(before)), e, s + rest);
    if Value(longer) <= MAX_ARC {
      DigitsAreTooMany(longer, s[1..], e, rest);
    }
  }

  lemma ParseFails(s: bytes, error: OidError)
    requires s != [] && IsDigit(s[0]) && ParseBytes(None, OidEncoder.New(), s) == Err(error)
    ensures Parse(s) == Err(error)
  {
  }

  /** A character that is neither a digit nor a dot, behind the text of arcs or at the start. */
  lemma OtherCharacterIsRefused(xs: seq<u32>, c: u8, rest: bytes)
    requires xs != [] && Feed(OidEncoder.New(), xs[..|xs| - 1]).Ok? && !('0' as int <= c <= '9' as int)
    ensures Parse([c] + rest) == Err(DigitExpected(c))
    ensures c != '.' as int ==> Parse(Text(xs) + ([c] + rest)) == Err(DigitExpected(c))
  {
    hide ParseBytes, Feed, Arc, Text;
    var e, tail := OidEncoder.New(), [c] + rest;
    if c != DOT {
      TextIsReadUpTo(xs, e, tail);
      OtherCharacters(xs[|xs| - 1], Feed(e, xs[..|xs| - 1]).value, tail);
      ParseFails(Text(xs) + tail, DigitExpected(c));
    }
  }

  /** A dot at the end, and two dots, behind the text of arcs. */
  lemma DotsAreRefused(xs: seq<u32>, rest: bytes)
    requires xs != [] && Feed(OidEncoder.New(), xs[..|xs| - 1]).Ok?
    ensures Parse(Text(xs) + Ascii(".")) == Err(TrailingDot)
    ensures Feed(OidEncoder.New(), xs).Ok? ==> Parse(Text(xs) + (Ascii("..") + rest)) == Err(RepeatedDot)
  {
    hide ParseBytes, Feed, Arc, Text, Parse;
    var e, arc := OidEncoder.New(), xs[|xs| - 1];
    var last := Feed(e, xs[..|xs| - 1]).value;
    TextIsReadUpTo(xs, e, Ascii("."));
    assert Ascii(".") == [DOT];
    OtherCharacters(arc, last, Ascii("."));
    ParseFails(Text(xs) + Ascii("."), TrailingDot);
    LastIsFed(xs, e);
    if Feed(e, xs).Ok? {
      var tail := Ascii("..") + rest;
      TextIsReadUpTo(xs, e, tail);
      assert tail[1..] == Ascii(".") + rest;
      DotIsRead(arc, last, tail);
      SecondDot(Arc(last, arc).value, tail[1..]);
      ParseFails(Text(xs) + tail, RepeatedDot);
    }
  }

  /** A number of more than 32 bits, behind the text of arcs. */
  lemma LargeNumberIsRefused(xs: seq<u32>, number: bytes, rest: bytes)
    requires xs != [] && Feed(OidEncoder.New(), xs).Ok? && Feed(OidEncoder.New(), xs[..|xs| - 1]).Ok?
    requires AllDigits(number) && FromDigits(DigitValues(number), 10) >= 0x1_0000_0000
    ensures Parse(Text(xs) + (Ascii(".") + (number + rest))) == Err(ArcTooBig)
  {
    hide ParseBytes, Feed, Arc, Text, Parse, Value, FromDigits;
    var e, arc := OidEncoder.New(), xs[|xs| - 1];
    var last, tail := Feed(e, xs[..|xs| - 1]).value, Ascii(".") + (number + rest);
    ValueIsNumber(number);
    NoDigits();
    LastIsFed(xs, e);
    TextIsReadUpTo(xs, e, tail);
    assert tail[1..] == number + rest && [] + number == number;
    NumberIsNotEmpty(number);
    DotIsRead(arc, last, tail);
    DigitsAreTooMany([], number, Arc(last, arc).value, rest);
    ParseFails(Text(xs) + tail, ArcTooBig);
  }

  lemma NumberIsNotEmpty(number: bytes)
    ensures FromDigits(DigitValues(number), 10) > 0 ==> number != []
  {
  }

  lemma {:induction false} LastIsFed(xs: seq<u32>, e: Encoder)
    requires e.Valid() && xs != [] && Feed(e, xs[..|xs| - 1]).Ok?
    ensures Feed(e, xs).Ok? ==> Arc(Feed(e, xs[..|xs| - 1]).value, xs[|xs| - 1]).Ok?
    decreases |xs|
  {
    hide Feed, Arc;
    FeedStep(e, xs);
    FeedStep(e, xs[..|xs| - 1]);
    if |xs| > 1 {
      assert xs[..|xs| - 1][1..] == xs[1..][..|xs| - 2];
      if Arc(e, xs[0]).Ok? {
        LastIsFed(xs[1..], Arc(e, xs[0]).value);
      }
    }
  }

  lemma OtherCharacters(arc: u32, e: Encoder, s: bytes)
    requires e.Valid() && s != []
    ensures !IsDigit(s[0]) && s[0] != DOT ==> ParseBytes(Some(arc), e, s) == Err(DigitExpected(s[0]))
    ensures s == [DOT] ==> ParseBytes(Some(arc), e, s) == Err(TrailingDot)
  {
  }

  lemma SecondDot(e: Encoder, s: bytes)
    requires e.Valid() && s != [] && s[0] == DOT
    ensures ParseBytes(None, e, s) == Err(RepeatedDot)
  {
  }

  // ----- texts in general -----

  /** No arc of more than one digit starts with a zero. */
  ghost predicate NoLeadingZeros(s: bytes) {
    forall i :: 0 <= i < |s| && StartsNumber(s, i) ==> s[i] != ZERO || i + 1 == |s| || !IsDigit(s[i + 1])
  }

  predicate StartsNumber(s: bytes, i: nat)
    requires i < |s|
  {
    i == 0 || s[i - 1] == DOT
  }

  /** A single number. */
  lemma NumberWithoutZeros(s: bytes)
    requires s != [] && AllDigits(s)
    ensures NoLeadingZeros(s) <==> (s[0] == ZERO ==> |s| == 1)
    ensures NoLeadingZeros(s) <==> Digits(Value(s)) == s
  {
    hide Digits, Value;
    assert StartsNumber(s, 0);
    assert |s| > 1 ==> IsDigit(s[1]);
    forall i | 0 < i < |s| ensures !StartsNumber(s, i) {
      assert IsDigit(s[i - 1]);
    }
    if s[0] == ZERO ==> |s| == 1 {
      DigitsOfValue(s);
    }
  }

  /** A number, a dot, and more. */
  lemma ZerosAroundDot(s: bytes, t: bytes)
    requires s != [] && AllDigits(s)
    ensures NoLeadingZeros(s + [DOT] + t) <==> NoLeadingZeros(s) && NoLeadingZeros(t)
  {
    var all, n := s + [DOT] + t, |s| + 1;
    forall i | 0 <= i < |s| ensures StartsNumber(all, i) == StartsNumber(s, i) && all[i] == s[i] {
    }
    forall i | 0 <= i < |t| ensures StartsNumber(all, i + n) == StartsNumber(t, i) && all[i + n] == t[i] {
    }
    if NoLeadingZeros(all) {
      forall i | 0 <= i < |s| && StartsNumber(s, i)
        ensures s[i] != ZERO || i + 1 == |s| || !IsDigit(s[i + 1])
      {
        assert StartsNumber(all, i);
      }
      forall i | 0 <= i < |t| && StartsNumber(t, i)
        ensures t[i] != ZERO || i + 1 == |t| || !IsDigit(t[i + 1])
      {
        assert StartsNumber(all, i + n);
        assert i + 1 < |t| ==> all[i + n + 1] == t[i + 1];
      }
    }
    if NoLeadingZeros(s) && NoLeadingZeros(t) {
      forall i | 0 <= i < |all| && StartsNumber(all, i)
        ensures all[i] != ZERO || i + 1 == |all| || !IsDigit(all[i + 1])
      {
        if i < |s| {
          assert StartsNumber(s, i);
        } else if i >= n {
          assert StartsNumber(t, i - n);
          assert i + 1 < |all| ==> all[i + 1] == t[i - n + 1];
        }
      }
    }
  }

  /** The first dot separates the same digits from the same rest. */
  lemma SameNumber(s: bytes, s': bytes, t: bytes, t': bytes)
    requires AllDigits(s) && AllDigits(s')
    ensures s + [DOT] + t == s' + [DOT] + t' <==> s == s' && t == t'
  {
    var all, all' := s + [DOT] + t, s' + [DOT] + t';
    if all == all' {
      assert all[|s|] == DOT && all'[|s'|] == DOT;
      assert |s| == |s'|;
      assert s == all[..|s|] && s' == all'[..|s'|] && t == all[|s| + 1..] && t' == all'[|s'| + 1..];
    }
  }

  /** The arc in progress after some digits. */
  ghost function InProgress(digits: bytes): Option<u32>
    requires AllDigits(digits) && Value(digits) <= MAX_ARC
  {
    if digits == [] then None else Some(Value(digits))
  }

  /** Whatever is parsed was built from some arcs; their text is what was parsed exactly when
      no arc was written with a leading zero. */
  lemma {:induction false} ParsedWasFed(before: bytes, e: Encoder, s: bytes) returns (xs: seq<u32>)
    requires AllDigits(before) && Value(before) <= MAX_ARC
    requires e.Valid() && ParseBytes(InProgress(before), e, s).Ok?
    ensures xs != [] && Feed(e, xs) == ParseBytes(InProgress(before), e, s)
    ensures Text(xs) == before + s <==> NoLeadingZeros(before + s)
    decreases |s|
  {
    hide Feed, Arc, Digits, Value, NoLeadingZeros, Text;
    if s == [] {
      xs := [Value(before)];
      FeedStep(e, xs);
      assert xs[1..] == [] && before + s == before;
      FeedStep(Arc(e, Value(before)).value, []);
      TextOfOne(xs[0]);
      NumberWithoutZeros(before);
    } else if IsDigit(s[0]) {
      NoDigits();
      ValueAppend(before, s[0]);
      assert before + [s[0]] + s[1..] == before + s;
      xs := ParsedWasFed(before + [s[0]], e, s[1..]);
    } else {
      NoDigits();
      var next := Arc(e, Value(before)).value;
      var rest := ParsedWasFed([], next, s[1..]);
      xs := [Value(before)] + rest;
      assert xs[1..] == rest && [] + s[1..] == s[1..];
      FeedStep(e, xs);
      TextOfMore(xs);
      assert before + s == before + [DOT] + s[1..];
      NumberWithoutZeros(before);
      ZerosAroundDot(before, s[1..]);
      SameNumber(Digits(Value(before)), before, Text(rest), s[1..]);
    }
  }

  lemma TextOfOne(arc: u32)
    ensures Text([arc]) == Digits(arc)
  {
  }

  lemma TextOfMore(xs: seq<u32>)
    requires |xs| > 1
    ensures Text(xs) == Digits(xs[0]) + [DOT] + Text(xs[1..])
  {
  }

  /** The text of an identifier that was parsed is the text it was parsed from if and only if
      no arc was written with a leading zero. */
  lemma TextIsCanonical(s: bytes)
    requires Parse(s).Ok?
    ensures var arcs := ArcsOf(Parse(s).value.AsBytes());
            arcs.Ok? && (Text(arcs.value) == s <==> NoLeadingZeros(s))
  {
    hide ParseBytes, Feed, Text, NoLeadingZeros;
    NoDigits();
    var xs := ParsedWasFed([], OidEncoder.New(), s);
    assert [] + s == s && Parse(s) == Built(xs);
    BuiltFromArcs(xs);
    ArcsOfOctets(xs);
  }

  /** Printing a parsed identifier and parsing it again gives the same identifier. */
  lemma ParsedIsReparsed(s: bytes)
    requires Parse(s).Ok?
    ensures var arcs := ArcsOf(Parse(s).value.AsBytes());
            arcs.Ok? && Encodable(arcs.value) && Parse(Text(arcs.value)) == Parse(s)
  {
    hide ParseBytes, Feed;
    NoDigits();
    var xs := ParsedWasFed([], OidEncoder.New(), s);
    assert Parse(s) == Built(xs);
    BuiltFromArcs(xs);
    ArcsOfOctets(xs);
    ParsedTextIsBuilt(xs);
  }

  /** A text with a leading zero that is accepted: `1.02` is the identifier `1.2`. */
  lemma LeadingZerosAreAccepted()
    ensures Parse([49, 46, 48, 50]) == Parse([49, 46, 50]) && Parse([49, 46, 50]).Ok?
  {
    var e := OidEncoder.New();
    var s, t := [49, 46, 48, 50], [49, 46, 50];
    assert s[1..] == [46, 48, 50] && s[1..][1..] == [48, 50] && s[1..][1..][1..] == [50] && [50][1..] == [];
    assert t[1..] == [46, 50] && t[1..][1..] == [50];
    var first := Arc(e, 1).value;
    DigitIsRead(None, e, s);
    DotIsRead(1, e, s[1..]);
    DigitIsRead(None, first, [48, 50]);
    DigitIsRead(Some(0), first, [50]);
    DigitIsRead(None, e, t);
    DotIsRead(1, e, t[1..]);
    DigitIsRead(None, first, [50]);
    EndIsRead(2, first);
  }
}
