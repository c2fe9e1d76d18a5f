/** The buffered PEM decoder (pem-rfc7468/src/decoder.rs). */
module PemDecoder {
  import opened Bits
  import opened Codec
  import opened Lines
  import opened PemDocument
  import opened PemGrammar
  import opened Wrappers
  import opened StreamingDecoder

  /** The label of the document, and data whose encoding is its text. */
  ghost predicate Contains(pem: bytes, width: nat, typeLabel: bytes, d: bytes) {
    Parsed(pem).Ok? && Parsed(pem).value.typeLabel == typeLabel &&
    Text(Parsed(pem).value.text, Some(width)).Some? &&
    Decoded(Base64Encoding(), Text(Parsed(pem).value.text, Some(width)).value) == Some(d)
  }

  class Decoder {
    const typeLabel: bytes
    const base64: StreamingDecoder.Decoder

    ghost function Repr(): set<object>
      reads base64
    {
      base64.Repr()
    }

    constructor (typeLabel: bytes, base64: StreamingDecoder.Decoder)
      ensures this.typeLabel == typeLabel && this.base64 == base64
    {
      this.typeLabel, this.base64 := typeLabel, base64;
    }

    /** The decoder has just been created for `pem`. */
    ghost predicate IsNew(pem: bytes, width: nat)
      reads Repr()
    {
      Parsed(pem).Ok? && typeLabel == Parsed(pem).value.typeLabel &&
      base64.IsNew(Base64Encoding(), Parsed(pem).value.text, Some(width))
    }

    static method NewWrapped(pem: bytes, width: nat) returns (r: Result<Decoder, PemError>)
      ensures Parsed(pem).Err? ==> r == Err(Parsed(pem).error)
      ensures r.Ok? <==> Parsed(pem).Ok? && width >= 4 &&
                         Accepted(Base64Encoding(), Parsed(pem).value.text, Some(width))
      ensures Parsed(pem).Ok? && Parsed(pem).value.text == [] ==> r == Err(Base64(InvalidLength))
      ensures Parsed(pem).Ok? && r.Err? ==>
                var text := Parsed(pem).value.text;
                if width < 4 || text == [] then r == Err(Base64(InvalidLength))
                else r.error.Base64? && Predicted(Base64Encoding(), text, Some(width)) == Err(r.error.error)
      ensures r.Ok? ==> r.value.IsNew(pem, width) && fresh(r.value.Repr())
    {
      hide Parsed, Accepted, Predicted, StreamingDecoder.Decoder.IsNew;
      var parsed := Parse(pem);
      if parsed.Err? {
        return Err(parsed.error);
      }
      var base64 := StreamingDecoder.Decoder.NewWrapped(Base64Encoding(), parsed.value.text, width);
      if base64.Err? {
        return Err(Base64(base64.error));
      }
      var decoder := new Decoder(parsed.value.typeLabel, base64.value);
      r := Ok(decoder);
    }

    /** A decoder for the width at which the first line of the text ends. */
    static method NewDetectWrap(pem: bytes) returns (r: Result<Decoder, PemError>)
      ensures Parsed(pem).Err? ==> r == Err(Parsed(pem).error)
      ensures Parsed(pem).Ok? ==>
                var text := Parsed(pem).value.text;
                var width := FirstNewline(text);
                (r.Ok? <==> width >= 4 && Accepted(Base64Encoding(), text, Some(width))) &&
                (r.Ok? ==> r.value.IsNew(pem, width) && fresh(r.value.Repr())) &&
                (r.Err? ==>
                   if width < 4 || text == [] then r == Err(Base64(InvalidLength))
                   else r.error.Base64? && Predicted(Base64Encoding(), text, Some(width)) == Err(r.error.error))
    {
      hide Parsed, Accepted, Predicted, FirstNewline, Decoder.IsNew;
      var parsed := Parse(pem);
      if parsed.Err? {
        return Err(parsed.error);
      }
      var width := FirstNewline(parsed.value.text);
      r := NewWrapped(pem, width);
    }

    /** Decode into `out[lo..hi]`. */
    method Decode(out: array<u8>, lo: nat, hi: nat) returns (r: Result<(), PemError>)
      requires base64.Valid() && lo <= hi <= out.Length
      modifies Repr(), out
      ensures r.Ok? ==>
                base64.Valid() && base64.delivered == old(base64.delivered) + out[lo..hi] &&
                base64.remainingLen == old(base64.remainingLen) - (hi - lo)
      ensures base64.WellFormed() ==>
                r == if hi - lo <= old(base64.remainingLen) then Ok(()) else Err(Base64(InvalidLength))
      ensures base64.LinesFollow() && Decoded(base64.e, base64.text).None? ==> r.Ok? || r == Err(Base64(InvalidEncoding))
      ensures base64.clean ==>
                (r.Ok? <==> Readable(base64.e, base64.text, |old(base64.delivered)| + (hi - lo)))
      ensures r.Err? ==> r.error.Base64?
      ensures out[..lo] == old(out[..lo]) && out[hi..] == old(out[hi..])
    {
      hide StreamingDecoder.Decoder.Valid, StreamingDecoder.Decoder.WellFormed, Decoded, Readable;
      var decoded := base64.Decode(out, lo, hi);
      r := match decoded case Ok(_) => Ok(()) case Err(error) => Err(Base64(error));
    }
  }

  /** A text that has a payload is accepted by the Base64 decoder and is well formed. */
  lemma PayloadIsAccepted(pem: bytes, width: nat)
    requires Payload(pem, width).Some?
    ensures Parsed(pem).Ok?
    ensures var text := Parsed(pem).value.text;
            var d := Payload(pem, width).value.1;
            Accepted(Base64Encoding(), text, Some(width)) && NoBlankLines(text, Some(width)) &&
            Contains(pem, width, Payload(pem, width).value.0, d) &&
            Predicted(Base64Encoding(), text, Some(width)) == Ok(|d|)
  {
    hide Decoded, Encoded, Text, NoBlankLines, Predicted, Parsed;
    var e, text, d := Base64Encoding(), Parsed(pem).value.text, Payload(pem, width).value.1;
    DecodesExactlyEncodings(e, Text(text, Some(width)).value, d);
    if d == [] {
      EncodedLength(e, d);
      OnlyBlankTextIsEmpty(text, Some(width));
    } else {
      EncodingsAreAccepted(e, text, Some(width), d);
    }
  }

  /** A colon in the input turns invalid Base64 into a complaint about headers. */
  function CheckForHeaders(pem: bytes, error: PemError): PemError {
    if error == Base64(InvalidEncoding) && CHAR_COLON in pem then HeaderDisallowed else error
  }

  lemma {:induction false} BoundaryErrors(data: bytes)
    ensures FindBoundary(data).Err? ==> FindBoundary(data).error == Preamble
  {
    if data != [] {
      BoundaryErrors(data[1..]);
    }
  }

  lemma ParsingErrors(pem: bytes)
    ensures Parsed(pem).Err? ==>
              Parsed(pem).error in {Preamble, PemError.Label, PreEncapsulationBoundary, PostEncapsulationBoundary}
  {
    hide FindBoundary, LabelSplit, StripSuffixes;
    BoundaryErrors(pem);
  }

  /** `decode`: what is returned is the label and the data of the document, and every document
      that has a payload decodes, given room.  Text that is no encoding is an error, which
      complains about headers if and only if there is a colon. */
  method Decode(pem: bytes, buf: array<u8>) returns (r: Result<(bytes, nat), PemError>)
    modifies buf
    ensures r.Ok? ==> r.value.1 <= buf.Length && Contains(pem, BASE64_WRAP_WIDTH, r.value.0, buf[..r.value.1])
    ensures Payload(pem, BASE64_WRAP_WIDTH).Some? ==>
              var (typeLabel, d) := Payload(pem, BASE64_WRAP_WIDTH).value;
              if |d| <= buf.Length then r == Ok((typeLabel, |d|)) && buf[..|d|] == d else r == Err(Length)
    ensures Parsed(pem).Err? ==> r == Err(Parsed(pem).error)
    ensures Parsed(pem).Ok? && Parsed(pem).value.text == [] ==> r == Err(Base64(InvalidLength))
    ensures r == Err(HeaderDisallowed) ==> ':' as int in pem
    ensures r == Err(Base64(InvalidEncoding)) ==> ':' as int !in pem
    ensures Parsed(pem).Ok? && Parsed(pem).value.text != [] ==>
              var text := Parsed(pem).value.text;
              var refused := if ':' as int in pem then HeaderDisallowed else Base64(InvalidEncoding);
              match Predicted(Base64Encoding(), text, Some(64))
              case Err(error) => r == Err(if error == InvalidEncoding then refused else Base64(InvalidLength))
              case Ok(n) =>
                Text(text, Some(64)).Some? &&
                if n > buf.Length then r == Err(Length)
                else Decoded(Base64Encoding(), Text(text, Some(64)).value).None? ==> r == Err(refused)
  {
    hide Parsed, Accepted, Payload, Decoded, StreamingDecoder.Decoder.Consistent, Text, NoBlankLines, Predicted;
    if Payload(pem, BASE64_WRAP_WIDTH).Some? {
      PayloadIsAccepted(pem, BASE64_WRAP_WIDTH);
    }
    var created := Decoder.NewWrapped(pem, BASE64_WRAP_WIDTH);
    if created.Err? {
      ParsingErrors(pem);
      return Err(CheckForHeaders(pem, created.error));
    }
    var decoder := created.value;
    var len := decoder.base64.remainingLen;
    if buf.Length < len {
      return Err(Length);
    }
    var decoded := decoder.Decode(buf, 0, len);
    if decoded.Err? {
      return Err(CheckForHeaders(pem, decoded.error));
    }
    assert buf[..len] == [] + buf[0..len];
    decoder.base64.NothingRemainsMeansDecoded();
    if decoder.base64.IsFinished() {
      decoder.base64.FinishedMeansDecoded();
      r := Ok((decoder.typeLabel, len));
    } else {
      r := Err(Length);
    }
    if decoder.base64.WellFormed() {
      decoder.base64.FinishedMeansNothingRemains();
    }
  }
}
