/** Whole runs of the streaming encoder and decoder: any split of the input into calls,
    any sequence of read sizes, any line width of at least 4 and any mixture of newlines. */
module Streaming {
  import opened Bits
  import opened Alphabets
  import opened Codec
  import opened Lines
  import opened StreamingEncoder
  import opened StreamingDecoder
  import opened Wrappers

  function Flatten(chunks: seq<bytes>): bytes {
    if chunks == [] then [] else chunks[0] + Flatten(chunks[1..])
  }

  lemma {:induction false} FlattenAppend(chunks: seq<bytes>, last: bytes)
    ensures Flatten(chunks + [last]) == Flatten(chunks) + last
  {
    if chunks == [] {
      assert chunks + [last] == [last] && Flatten([]) == [];
    } else {
      FlattenAppend(chunks[1..], last);
      assert (chunks + [last])[1..] == chunks[1..] + [last];
    }
  }

  /** One `encode` call per chunk, then `finish`: the output is the laid-out one-shot encoding
      of the whole input, and the run succeeds exactly when that fits. */
  method EncodeAll(e: Encoding, chunks: seq<bytes>, output: array<u8>, layout: Layout) returns (r: Result<nat, Error>)
    requires layout.Valid()
    modifies output
    ensures r.Ok? <==> output.Length > 0 && layout.Fits(Encoded(e, Flatten(chunks)), output.Length)
    ensures r.Ok? ==> r.value <= output.Length && output[..r.value] == layout.Of(Encoded(e, Flatten(chunks)))
    ensures r.Err? ==> r.error == InvalidLength
  {
    hide Encoded, Layout.Of, Layout.Fits;
    ghost var all := Flatten(chunks);
    var created := NewEncoder(e, output, layout);
    if created.Err? {
      return Err(InvalidLength);
    }
    var encoder := created.value;
    for i := 0 to |chunks|
      invariant encoder.Valid() && fresh(encoder.Repr() - {output})
      invariant encoder.e == e && encoder.output == output && encoder.start == 0 && encoder.Config() == layout
      invariant encoder.consumed == Flatten(chunks[..i])
    {
      FlattenAppend(chunks[..i], chunks[i]);
      assert chunks[..i + 1] == chunks[..i] + [chunks[i]];
      ghost var before := encoder.consumed;
      var encoded := encoder.Encode(chunks[i]);
      if encoded.Err? {
        if layout.Fits(Encoded(e, all), output.Length) {
          PrefixFits(e, layout, chunks, i + 1, output.Length);
        }
        return Err(InvalidLength);
      }
    }
    assert chunks[..|chunks|] == chunks;
    r := encoder.FinishWithRemaining();
  }

  method NewEncoder(e: Encoding, output: array<u8>, layout: Layout) returns (r: Result<Encoder, Error>)
    requires layout.Valid()
    ensures r.Err? <==> output.Length == 0
    ensures r.Ok? ==>
              var c := r.value;
              c.Valid() && c.consumed == [] && c.e == e && c.output == output && c.start == 0 &&
              c.Config() == layout && fresh(c.Repr() - {output})
  {
    match layout
    case Contiguous => r := Encoder.New(e, output, 0);
    case WrappedAt(width, ending) => r := Encoder.NewWrapped(e, output, 0, width, ending);
  }

  /** If everything fits, so does every prefix of the calls. */
  lemma {:induction false} PrefixFits(e: Encoding, layout: Layout, chunks: seq<bytes>, i: nat, capacity: nat)
    requires layout.Valid() && i <= |chunks|
    requires layout.Fits(Encoded(e, Flatten(chunks)), capacity)
    ensures layout.Fits(WholeBlocks(e, Flatten(chunks[..i])), capacity)
  {
    hide Encoded, Layout.Of, Layout.Fits;
    var all := Flatten(chunks);
    var n := |all| - |all| % 3;
    assert all == all[..n] + all[n..];
    EncodedConcat(e, all[..n], all[n..]);
    FitsPrefix(layout, WholeBlocks(e, all), Encoded(e, all[n..]), capacity);
    FlattenSplit(chunks, i);
    WholeBlocksFit(e, layout, Flatten(chunks[..i]), Flatten(chunks[i..]), capacity);
  }

  lemma {:induction false} FlattenSplit(chunks: seq<bytes>, i: nat)
    requires i <= |chunks|
    ensures Flatten(chunks) == Flatten(chunks[..i]) + Flatten(chunks[i..])
  {
    if i > 0 {
      FlattenSplit(chunks[1..], i - 1);
      assert chunks[..i][1..] == chunks[1..][..i - 1] && chunks[i..] == chunks[1..][i - 1..];
    } else {
      assert chunks[..i] == [] && chunks[i..] == chunks;
    }
  }

  // ----- reading -----

  lemma EncodedHasNoNewlines(e: Encoding, d: bytes)
    ensures NoNewlines(Encoded(e, d))
  {
    hide Encoded;
    var u := Encoded(e.Unpadded(), d);
    EncodedDecodes(e.Unpadded(), d);
    EncodedUnpads(e, d);
    assert !IsChar(e.alphabet, CHAR_CR) && !IsChar(e.alphabet, CHAR_LF);
    if e.padded {
      EncodedPadding(e, d);
    }
  }

  /** Wrapping an encoding at any width, with any mixture of newlines, yields text that the
      decoder accepts and predicts correctly. */
  lemma WrappedTextIsWellFormed(e: Encoding, d: bytes, width: nat, s: bytes)
    requires d != [] && width >= MIN_LINE_WIDTH && IsWrapping(s, Encoded(e, d), width)
    ensures Text(s, Some(width)) == Some(Encoded(e, d)) && NoBlankLines(s, Some(width))
    ensures Accepted(e, s, Some(width)) && Predicted(e, s, Some(width)) == Ok(|d|)
  {
    hide Encoded, IsWrapping;
    EncodedHasNoNewlines(e, d);
    TextOfWrapping(s, Encoded(e, d), width);
    EncodingsAreAccepted(e, s, Some(width), d);
  }

  /** `s` is `text`, as one line or wrapped at a supported width with any mixture of newlines. */
  ghost predicate IsLaidOut(s: bytes, text: bytes, lineWidth: Option<nat>) {
    match lineWidth
    case None => s == text
    case Some(width) => width >= MIN_LINE_WIDTH && IsWrapping(s, text, width)
  }

  lemma LaidOutTextIsWellFormed(e: Encoding, d: bytes, lineWidth: Option<nat>, s: bytes)
    requires d != [] && IsLaidOut(s, Encoded(e, d), lineWidth)
    ensures lineWidth.Some? ==> lineWidth.value >= MIN_LINE_WIDTH
    ensures Text(s, lineWidth) == Some(Encoded(e, d)) && NoBlankLines(s, lineWidth)
    ensures Accepted(e, s, lineWidth) && Predicted(e, s, lineWidth) == Ok(|d|)
  {
    hide Encoded, IsWrapping;
    match lineWidth
    case None =>
      EncodedHasNoNewlines(e, d);
      TextOfContiguous(s);
      EncodingsAreAccepted(e, s, None, d);
    case Some(width) => WrappedTextIsWellFormed(e, d, width, s);
  }

  method NewDecoder(e: Encoding, input: bytes, lineWidth: Option<nat>) returns (r: Result<Decoder, Error>)
    requires lineWidth.Some? ==> lineWidth.value >= MIN_LINE_WIDTH
    ensures r.Ok? <==> Accepted(e, input, lineWidth)
    ensures r.Ok? ==> r.value.IsNew(e, input, lineWidth) && fresh(r.value.Repr())
  {
    match lineWidth
    case None => r := Decoder.New(e, input);
    case Some(width) => r := Decoder.NewWrapped(e, input, width);
  }

  function Sum(sizes: seq<nat>): nat {
    if sizes == [] then 0 else sizes[0] + Sum(sizes[1..])
  }

  lemma {:induction false} SumAppend(sizes: seq<nat>, i: nat)
    requires i < |sizes|
    ensures Sum(sizes[..i + 1]) == Sum(sizes[..i]) + sizes[i]
    ensures Sum(sizes[..i + 1]) <= Sum(sizes)
  {
    if i == 0 {
      assert sizes[..1] == [sizes[0]] && sizes[..0] == [] && Sum([sizes[0]]) == sizes[0] + Sum([]);
      assert [sizes[0]][1..] == [];
    } else {
      SumAppend(sizes[1..], i - 1);
      assert sizes[..i + 1][1..] == sizes[1..][..i] && sizes[..i][1..] == sizes[1..][..i - 1];
    }
  }

  /** Read after read from one line or from wrapped text: each succeeds while there is enough data and
      delivers the next consecutive bytes; the decoder is finished, and reports that nothing
      remains, exactly when everything has been delivered. */
  method DecodeAll(e: Encoding, input: bytes, lineWidth: Option<nat>, sizes: seq<nat>, out: array<u8>, ghost d: bytes)
    returns (r: Result<bool, Error>)
    requires d != [] && IsLaidOut(input, Encoded(e, d), lineWidth)
    requires Sum(sizes) <= out.Length
    modifies out
    ensures if Sum(sizes) <= |d| then r == Ok(Sum(sizes) == |d|) && out[..Sum(sizes)] == d[..Sum(sizes)]
            else r == Err(InvalidLength)
  {
    hide Encoded, IsLaidOut, Accepted, Text, NoBlankLines, Decoded, Decoder.Consistent;
    LaidOutTextIsWellFormed(e, d, lineWidth, input);
    var created := NewDecoder(e, input, lineWidth);
    var decoder := created.value;
    DecodesExactlyEncodings(e, decoder.text, d);
    var at := 0;
    for i := 0 to |sizes|
      invariant decoder.Valid() && fresh(decoder.Repr()) && decoder.WellFormed()
      invariant Decoded(decoder.e, decoder.text) == Some(d)
      invariant at == Sum(sizes[..i]) <= out.Length && decoder.delivered == out[..at]
    {
      SumAppend(sizes, i);
      decoder.FinishedMeansNothingRemains();
      ghost var before := out[..at];
      var read := decoder.Decode(out, at, at + sizes[i]);
      if read.Err? {
        return Err(read.error);
      }
      assert out[..at + sizes[i]] == before + out[at..at + sizes[i]];
      at := at + sizes[i];
    }
    assert sizes[..|sizes|] == sizes;
    decoder.FinishedMeansNothingRemains();
    r := Ok(decoder.IsFinished());
  }
}
