/** The buffered PEM encoder (pem-rfc7468/src/encoder.rs): it writes exactly `Document`, and
    it succeeds exactly when that fits. */
module PemEncoder {
  import opened Bits
  import opened Alphabets
  import opened Codec
  import opened Lines
  import opened PemDocument
  import opened PemGrammar
  import opened Slices
  import opened Streaming
  import opened Wrappers
  import opened StreamingEncoder

  /** Write the parts of a boundary one after the other. */
  method WriteParts(out: array<u8>, at: nat, parts: seq<bytes>) returns (r: Result<nat, PemError>)
    requires at <= out.Length
    modifies out
    ensures var end := at + |Flatten(parts)|;
            if end <= out.Length then r == Ok(end) && out[at..end] == Flatten(parts) else r == Err(Length)
    ensures out[..at] == old(out[..at])
  {
    var pos := at;
    for i := 0 to |parts|
      invariant pos == at + |Flatten(parts[..i])| <= out.Length
      invariant out[at..pos] == Flatten(parts[..i]) && out[..at] == old(out[..at])
    {
      FlattenAppend(parts[..i], parts[i]);
      assert parts[..i + 1] == parts[..i] + [parts[i]];
      FlattenSplit(parts, i + 1);
      if out.Length - pos < |parts[i]| {
        return Err(Length);
      }
      ghost var before := out[..];
      CopyFromSlice(out, pos, parts[i]);
      AppendOutput(before, out[..], at, pos, parts[i]);
      pos := pos + |parts[i]|;
    }
    assert parts[..|parts|] == parts;
    r := Ok(pos);
  }

  lemma FlattenOfFour(a: bytes, b: bytes, c: bytes, d: bytes)
    ensures Flatten([a, b, c, d]) == a + b + c + d
  {
    assert [a, b, c, d][1..] == [b, c, d] && [b, c, d][1..] == [c, d] && [c, d][1..] == [d] && [d][1..] == [];
    calc {
      Flatten([a, b, c, d]);
      a + Flatten([b, c, d]);
      a + (b + Flatten([c, d]));
      a + (b + (c + Flatten([d])));
      a + b + c + d;
    }
  }

  lemma PartsAreWhole(typeLabel: bytes, ending: LineEnding)
    ensures Flatten(HeaderParts(typeLabel, ending)) == Header(typeLabel, ending)
    ensures Flatten(FooterParts(typeLabel, ending)) == Footer(typeLabel, ending)
  {
    hide LineEnding.Bytes;
    var eol := ending.Bytes();
    FlattenOfFour(PRE_ENCAPSULATION_BOUNDARY, typeLabel, ENCAPSULATION_BOUNDARY_DELIMITER, eol);
    FlattenOfFour(POST_ENCAPSULATION_BOUNDARY, typeLabel, ENCAPSULATION_BOUNDARY_DELIMITER, eol);
    assert FooterParts(typeLabel, ending)[1..] ==
      [POST_ENCAPSULATION_BOUNDARY, typeLabel, ENCAPSULATION_BOUNDARY_DELIMITER, eol];
    assert Footer(typeLabel, ending) ==
      eol + (POST_ENCAPSULATION_BOUNDARY + typeLabel + ENCAPSULATION_BOUNDARY_DELIMITER + eol);
  }

  class Encoder {
    const typeLabel: bytes
    const ending: LineEnding
    const base64: StreamingEncoder.Encoder

    ghost function Repr(): set<object>
      reads base64
    {
      base64.Repr()
    }

    /** Header written, Base64 encoder running behind it. */
    ghost predicate Valid()
      reads Repr()
    {
      base64.Valid() && base64.e == Base64Encoding() && base64.start == |Header(typeLabel, ending)| &&
      base64.Config().WrappedAt? && base64.Config().ending == ending && base64.Config().Valid() &&
      base64.output.Length <= ISIZE_MAX &&
      base64.start <= base64.output.Length && base64.output[..base64.start] == Header(typeLabel, ending)
    }

    /** The document that encapsulates the input so far. */
    ghost function Content(): bytes
      requires base64.Config().WrappedAt? && base64.Config().width > 0
      reads base64
    {
      Document(typeLabel, ending, base64.Config().width, base64.consumed)
    }

    constructor (typeLabel: bytes, ending: LineEnding, base64: StreamingEncoder.Encoder)
      ensures this.typeLabel == typeLabel && this.ending == ending && this.base64 == base64
    {
      this.typeLabel, this.ending, this.base64 := typeLabel, ending, base64;
    }

    /** An encoder that has written the header into `out`, a slice. */
    static method NewWrapped(typeLabel: bytes, width: nat, ending: LineEnding, out: array<u8>)
      returns (r: Result<Encoder, PemError>)
      requires out.Length <= ISIZE_MAX
      modifies out
      ensures !ValidLabel(typeLabel) ==> r == Err(Label)
      ensures ValidLabel(typeLabel) && |Header(typeLabel, ending)| > out.Length ==> r == Err(Length)
      ensures r.Ok? <==> ValidLabel(typeLabel) && |Header(typeLabel, ending)| < out.Length && width >= 4
      ensures ValidLabel(typeLabel) && |Header(typeLabel, ending)| <= out.Length && r.Err? ==>
                r == Err(Base64(InvalidLength))
      ensures r.Ok? ==>
                var c := r.value;
                c.Valid() && c.typeLabel == typeLabel && c.ending == ending && c.base64.output == out &&
                c.base64.Config().width == width && c.base64.consumed == [] && fresh(c.Repr() - {out})
    {
      hide ValidLabel, StreamingEncoder.Encoder.Valid, Header, Footer;
      var valid := ValidateLabel(typeLabel);
      if valid.Err? {
        return Err(valid.error);
      }
      PartsAreWhole(typeLabel, ending);
      var written := WriteParts(out, 0, HeaderParts(typeLabel, ending));
      if written.Err? {
        return Err(written.error);
      }
      assert out[..written.value] == out[0..written.value];
      var base64 := StreamingEncoder.Encoder.NewWrapped(Base64Encoding(), out, written.value, width, ending);
      if base64.Err? {
        return Err(Base64(base64.error));
      }
      var encoder := new Encoder(typeLabel, ending, base64.value);
      r := Ok(encoder);
    }

    /** Encode more input. */
    method Encode(input: bytes) returns (r: Result<(), PemError>)
      requires Valid()
      modifies Repr()
      ensures r.Ok? ==> Valid() && base64.consumed == old(base64.consumed) + input
      ensures r.Ok? <==>
                base64.Config().Fits(WholeBlocks(base64.e, old(base64.consumed) + input), base64.Capacity())
      ensures r.Err? ==> r.error == Base64(InvalidLength)
    {
      hide StreamingEncoder.Encoder.Valid, Layout.Fits, Header, WholeBlocks;
      var encoded := base64.Encode(input);
      r := match encoded case Ok(_) => Ok(()) case Err(error) => Err(Base64(error));
    }

    /** Write the footer; the result is the length of the document. */
    method Finish() returns (r: Result<nat, PemError>)
      requires Valid()
      modifies Repr()
      ensures r.Ok? <==> |old(Content())| <= base64.output.Length
      ensures r.Ok? ==> r.value == |old(Content())| && base64.output[..r.value] == old(Content())
      ensures r.Err? ==>
                var text := Encoded(base64.e, old(base64.consumed));
                r.error == if base64.Config().Fits(text, base64.Capacity()) then Length else Base64(InvalidLength)
    {
      hide StreamingEncoder.Encoder.Valid, Layout.Of, Layout.Fits, Header, Footer, Encoded, Wrapped, LineEnding.Bytes;
      hide Content;
      ghost var text := Encoded(base64.e, base64.consumed);
      ContentParts();
      var finished := base64.FinishWithRemaining();
      if finished.Err? {
        RoomForFooter(base64.Config(), text, base64.Capacity(), typeLabel, ending);
        return Err(Base64(finished.error));
      }
      var at := base64.start + finished.value;
      assert base64.output[..at] == base64.output[..base64.start] + base64.output[base64.start..at];
      r := WriteFooter(at);
    }

    /** Write the footer after the text, which ends at `at`. */
    method WriteFooter(at: nat) returns (r: Result<nat, PemError>)
      requires base64.start == |Header(typeLabel, ending)| <= at <= base64.output.Length <= ISIZE_MAX
      modifies base64.output
      ensures var content := old(base64.output[..at]) + Footer(typeLabel, ending);
              if |content| <= base64.output.Length then r == Ok(|content|) && base64.output[..|content|] == content
              else r == Err(Length)
    {
      hide Header, Footer;
      PartsAreWhole(typeLabel, ending);
      var written := WriteParts(base64.output, at, FooterParts(typeLabel, ending));
      if written.Err? {
        return Err(written.error);
      }
      assert base64.output[..written.value] == base64.output[..at] + base64.output[at..written.value];
      InnerLenIsExact(typeLabel, ending, at - base64.start);
      BoundaryLengths(typeLabel, ending);
      var len := EncapsulatedLenInner(typeLabel, ending, at - base64.start);
      r := match len case Some(n) => Ok(n) case None => Err(Length);
    }

    lemma ContentParts()
      requires base64.Config().WrappedAt? && base64.Config().ending == ending && base64.Config().width > 0
      requires base64.e == Base64Encoding() && base64.Config().Valid()
      ensures Content() == Header(typeLabel, ending) + base64.Config().Of(Encoded(base64.e, base64.consumed)) +
                           Footer(typeLabel, ending)
    {
    }
  }

  /** If the footer fits behind the text, so does the last line break of the text. */
  lemma RoomForFooter(layout: Layout, text: bytes, capacity: nat, typeLabel: bytes, ending: LineEnding)
    requires layout.Valid() && !layout.Fits(text, capacity)
    ensures |layout.Of(text)| + |Footer(typeLabel, ending)| > capacity
  {
    hide Layout.Of;
  }

  lemma BoundaryLengths(typeLabel: bytes, ending: LineEnding)
    ensures |Header(typeLabel, ending)| + |Footer(typeLabel, ending)| == 30 + 2 * |typeLabel| + 3 * |ending.Bytes()|
  {
  }

  // ----- one call -----

  ghost predicate SevenBit(s: bytes) {
    forall i :: 0 <= i < |s| ==> s[i] < 0x80
  }

  /** OR of the high bits of all characters. */
  method FoldHighBits(output: bytes) returns (acc: u8)
    ensures acc == 0 <==> SevenBit(output)
  {
    hide And, Or;
    acc := 0;
    for i := 0 to |output|
      invariant acc == 0 || acc == 0x80
      invariant acc == 0 <==> forall j :: 0 <= j < i ==> output[j] < 0x80
    {
      HighBit(output[i]);
      OrOfHighBits();
      acc := Or(acc, And(output[i], 0x80));
    }
  }

  lemma OrOfHighBits()
    ensures Or(0, 0x80) == Or(0x80, 0) == Or(0x80, 0x80) == 0x80 && Or(0, 0) == 0
  {
  }

  lemma HighBit(c: u8)
    ensures And(c, 0x80) == if c < 0x80 then 0 else 0x80
  {
    hide And;
    assert Pow2(7) == 0x80 && Pow2(1) == 2;
    AndShifted(c, 1, 7);
    AndLowMask(c / 0x80, 1);
  }

  lemma EncodedIsSevenBit(e: Encoding, d: bytes)
    ensures SevenBit(Encoded(e, d))
  {
    hide Encoded, Lookup;
    EncodedDecodes(e.Unpadded(), d);
    EncodedUnpads(e, d);
    if e.padded {
      EncodedPadding(e, d);
    }
    var u := Encoded(e.Unpadded(), d);
    forall i | 0 <= i < |u| ensures u[i] < 0x80 {
      assert IsChar(e.alphabet, u[i]) && ValidChar(e.alphabet, u[i]);
      assert ValidSextet(e.alphabet, Lookup(e.alphabet.decoder, u[i]));
    }
  }

  lemma {:induction false} WrappedIsSevenBit(text: bytes, width: nat, ending: LineEnding)
    requires width > 0 && SevenBit(text)
    ensures SevenBit(Wrapped(text, width, ending.Bytes()))
    decreases |text|
  {
    if |text| > width {
      WrappedIsSevenBit(text[width..], width, ending);
    }
  }

  /** A document is 7-bit text. */
  lemma DocumentIsAscii(typeLabel: bytes, ending: LineEnding, width: nat, d: bytes)
    requires ValidLabel(typeLabel) && width > 0
    ensures SevenBit(Document(typeLabel, ending, width, d))
  {
    hide Encoded, Wrapped, SevenBit;
    var text, eol := Wrapped(Encoded(Base64Encoding(), d), width, ending.Bytes()), ending.Bytes();
    EncodedIsSevenBit(Base64Encoding(), d);
    WrappedIsSevenBit(Encoded(Base64Encoding(), d), width, ending);
    BoundariesAreSevenBit(typeLabel, ending);
    SevenBitConcat(PRE_ENCAPSULATION_BOUNDARY, typeLabel);
    SevenBitConcat(PRE_ENCAPSULATION_BOUNDARY + typeLabel, ENCAPSULATION_BOUNDARY_DELIMITER);
    SevenBitConcat(PRE_ENCAPSULATION_BOUNDARY + typeLabel + ENCAPSULATION_BOUNDARY_DELIMITER, eol);
    SevenBitConcat(eol, POST_ENCAPSULATION_BOUNDARY);
    SevenBitConcat(eol + POST_ENCAPSULATION_BOUNDARY, typeLabel);
    SevenBitConcat(eol + POST_ENCAPSULATION_BOUNDARY + typeLabel, ENCAPSULATION_BOUNDARY_DELIMITER);
    SevenBitConcat(eol + POST_ENCAPSULATION_BOUNDARY + typeLabel + ENCAPSULATION_BOUNDARY_DELIMITER, eol);
    SevenBitConcat(Header(typeLabel, ending), text);
    SevenBitConcat(Header(typeLabel, ending) + text, Footer(typeLabel, ending));
  }

  lemma SevenBitConcat(s: bytes, t: bytes)
    requires SevenBit(s) && SevenBit(t)
    ensures SevenBit(s + t)
  {
  }

  lemma BoundariesAreSevenBit(typeLabel: bytes, ending: LineEnding)
    requires ValidLabel(typeLabel)
    ensures SevenBit(typeLabel) && SevenBit(ending.Bytes())
    ensures SevenBit(PRE_ENCAPSULATION_BOUNDARY) && SevenBit(POST_ENCAPSULATION_BOUNDARY)
    ensures SevenBit(ENCAPSULATION_BOUNDARY_DELIMITER)
  {
  }

  /** If even the whole blocks do not fit, the document does not. */
  lemma PrefixTooLong(typeLabel: bytes, ending: LineEnding, width: nat, d: bytes, capacity: nat)
    requires width >= MIN_LINE_WIDTH && |Header(typeLabel, ending)| <= capacity
    requires !WrappedAt(width, ending).Fits(WholeBlocks(Base64Encoding(), d), capacity - |Header(typeLabel, ending)|)
    ensures |Document(typeLabel, ending, width, d)| > capacity
    ensures !WrappedAt(width, ending).Fits(Encoded(Base64Encoding(), d), capacity - |Header(typeLabel, ending)|)
  {
    hide Encoded, Layout.Fits, WholeBlocks, Header, Footer;
    var layout, room := WrappedAt(width, ending), capacity - |Header(typeLabel, ending)|;
    if layout.Fits(Encoded(Base64Encoding(), d), room) {
      assert Flatten([d]) == d && Flatten([d][..1]) == d;
      PrefixFits(Base64Encoding(), layout, [d], 1, room);
    }
    RoomForFooter(layout, Encoded(Base64Encoding(), d), room, typeLabel, ending);
  }

  lemma HeaderIsShorter(typeLabel: bytes, ending: LineEnding, d: bytes)
    ensures |Header(typeLabel, ending)| < |Document(typeLabel, ending, BASE64_WRAP_WIDTH, d)|
  {
    hide Encoded, Wrapped;
  }

  /** `encode`: one document per buffer. */
  method Encode(typeLabel: bytes, ending: LineEnding, input: bytes, buf: array<u8>) returns (r: Result<nat, PemError>)
    requires buf.Length <= ISIZE_MAX
    modifies buf
    ensures !ValidLabel(typeLabel) ==> r == Err(Label)
    ensures var doc := Document(typeLabel, ending, BASE64_WRAP_WIDTH, input);
            (r.Ok? <==> ValidLabel(typeLabel) && |doc| <= buf.Length) &&
            (r.Ok? ==> r.value == |doc| && buf[..r.value] == doc)
    ensures ValidLabel(typeLabel) && r.Err? ==>
              var text, room := Encoded(Base64Encoding(), input), buf.Length - |Header(typeLabel, ending)|;
              r.error == if room < 0 || (room > 0 && WrappedAt(64, ending).Fits(text, room)) then Length
                         else Base64(InvalidLength)
  {
    hide ValidLabel, Layout.Fits, Encoded, WholeBlocks, SevenBit, Wrapped, Document, Header, Footer;
    HeaderIsShorter(typeLabel, ending, input);
    var created := Encoder.NewWrapped(typeLabel, BASE64_WRAP_WIDTH, ending, buf);
    if created.Err? {
      return Err(created.error);
    }
    var encoder := created.value;
    assert [] + input == input;
    var encoded := encoder.Encode(input);
    if encoded.Err? {
      PrefixTooLong(typeLabel, ending, BASE64_WRAP_WIDTH, input, buf.Length);
      return Err(encoded.error);
    }
    var len := encoder.Finish();
    if len.Err? {
      return Err(len.error);
    }
    DocumentIsAscii(typeLabel, ending, BASE64_WRAP_WIDTH, input);
    var highBits := FoldHighBits(buf[..len.value]);
    r := if highBits == 0 then Ok(len.value) else Err(CharacterEncoding);
  }

  /** `encode_string`: a buffer of the computed length always suffices and is filled.  Lengths
      between `isize::MAX` and `usize::MAX` cannot be allocated. */
  method EncodeString(typeLabel: bytes, ending: LineEnding, input: bytes) returns (r: Result<bytes, PemError>)
    requires var len := |Document(typeLabel, ending, BASE64_WRAP_WIDTH, input)|; len <= ISIZE_MAX || len > USIZE_MAX
    ensures var doc := Document(typeLabel, ending, BASE64_WRAP_WIDTH, input);
            r == if |doc| > USIZE_MAX then Err(Length)
                 else if ValidLabel(typeLabel) then Ok(doc)
                 else Err(Label)
  {
    hide Document, ValidLabel;
    EncodedLenIsExact(typeLabel, ending, input);
    var expected := EncodedLenOf(typeLabel, ending, input);
    if expected.Err? {
      return Err(expected.error);
    }
    var buf := new u8[expected.value];
    var len := Encode(typeLabel, ending, input, buf);
    r := match len case Ok(n) => Ok(buf[..n]) case Err(error) => Err(error);
  }
}
