# Verified model of the RustCrypto formats core

This project models, in Dafny, six pieces of the RustCrypto `formats` repository and proves what
their documentation promises, for all inputs.

* **`base64ct`** (`Alphabet.dfy`, `Codec.dfy`, `Base64Numbers.dfy`, `Lines.dfy`, `Encoder.dfy`, `Decoder.dfy`,
  `Streaming.dfy`): the branch-free alphabets, the one-shot codec, decoding in place, and the two
  streaming classes. `Codec.Encoded` is the reference definition. The streaming `Encoder`, in any
  split of its input into calls, at any width and with any line ending, lays out the one-shot
  encoding; the streaming `Decoder`, for any sizes of reads and any mixture of line endings, delivers
  the data of the text piece by piece, and its advance prediction of the length is exact.
* **`pem-rfc7468`** (`PemGrammar.dfy`, `PemDocument.dfy`, `PemEncoder.dfy`, `PemDecoder.dfy`): label
  grammar, preamble, boundaries, exact length arithmetic, and the whole-document round trip of
  RFC 7468 on top of the streaming classes.
* **`der::DateTime`** (`DateTime.dfy`, `DateTimeText.dfy`): the closed-form conversion from dates to
  seconds and the cycle-reducing conversion back, against a calendar that counts days one year and one
  month at a time; the text forms of date-times and of the ASN.1 type `UTCTime`.
* **`der` tags, lengths, headers and nested values** (`Base128.dfy`, `DerTag.dfy`, `DerLength.dfy`,
  `DerHeader.dfy`, `DerReader.dfy`, `DerWriter.dfy`, `DerTree.dfy`, `DerCodec.dfy`): the canonical
  coding of X.690 sections 8.1.2, 8.1.3 and 10.1, and derived SEQUENCEs nested to any depth.
* **`const-oid`** (`Oid.dfy`, `OidEncoder.dfy`, `OidText.dfy`, `OidCodec.dfy`): arcs, octets and text of
  object identifiers (X.690 section 8.19).
* **`phc`** (`PhcText.dfy`, `PhcParams.dfy`, `PhcHash.dfy`): the parameter buffer as an ordered map,
  and the password-hash string with its optional, look-alike fields.

`Bits.dfy` gives machine integers and the two's complement operators over unbounded integers,
`Slices.dfy`, `Decimals.dfy` and `Wrappers.dfy` small shared pieces.

## How the model follows the source

Objects whose methods update their fields are classes with those fields (`BlockBuffer`,
`LineWrapper`, `LineReader`, `Encoder`, `Decoder`, `SliceReader`, `SliceWriter`, `Arcs`, `Iter`,
`ParamsString`); output buffers are arrays. The `const` encoder of object identifiers passes itself on
by value, and so does the model. Bytes are integers from 0 to 255; shifts are multiplications and
divisions by powers of two, and checked additions and multiplications are written out. Strings are
ASCII bytes. Each method is proved against a function on sequences, and the main results are about
those functions: that they invert each other, and, in characters, octets and numbers, what they are.

## Where the code and what is expected of it differ

Each of these is a theorem, with the exact condition under which the expectation holds.

* Wrapping needs room behind the last line ending it inserts: text that would fit exactly is refused
  when its last block starts a new line (`StreamingEncoder.FitsStep`, `Streaming.EncodeAll`; an instance
  in `StreamingEncoder.ExactFitIsRefused`).
* Decoding in place checks the padding characters, although its documentation says that it does not
  validate padding; what it does not check is the spare bits of the last block. A text that decodes
  in place decodes if and only if they are clear (`Codec.DecodesIfSpareBitsClear`; an instance in
  `Codec.InPlaceAcceptsSpareBits`).
* The text of an object identifier is not canonical: it is printed as it was parsed if and only if no
  arc was written with a leading zero (`OidText.TextIsCanonical`, `OidText.LeadingZerosAreAccepted`).
* A PEM label that starts with a blank can be encoded but not decoded, and so can a document without
  data; every other document comes back (`PemDocument.DocumentRoundTrip`).
* The documentation of `encapsulated_len` calls its result an upper bound that is typically a byte too
  long; it is exact (`PemDocument.EstimateIsExact`).
* A derived SEQUENCE comes back from its encoding if and only if it is nested at most 64 deep
  (`DerTree.RoundTrip`, `DerCodec.FromDer`).
* `parent` undoes `push_arc` if and only if no arc of the identifier is stored with a leading 0x80,
  which `from_bytes` accepts (`OidCodec.ParentOfPushed`, `OidCodec.PaddedArcIsAccepted`). The
  documentation asks for at least three arcs; the code accepts two (`OidEncoder.BuiltFromArcs`).
* A failed `add` restores the parameter text but not the bytes behind it. Derived equality compares
  those too, so the buffer compares equal afterwards if and only if the parts that fit were there
  already; a clean buffer stays clean exactly when the name was taken or there was no room for the
  delimiter (`PhcParams.ParamsString.Add`, `PhcParams.CommaIsLeftBehind`). A password hash with such
  parameters is not equal to the one parsed from its text (`PhcHash.RoundTrip`).
* Printing and parsing a password hash is the identity exactly when its parameter buffer is clean, a
  hash comes with a salt, and it is not the case that the version is absent while the parameters are a
  single pair named `v` (`PhcHash.RoundTrip`, `PhcHash.ParameterIsReadAsVersion`).

## Model

| member | source | states |
|---|---|---|
| Alphabets.BetweenIsMask | base64ct/src/alphabet.rs:53-73 | the shift-and-mask comparison of the decoder is all ones exactly between the bounds of a step, and zero elsewhere |
| Alphabets.LookupFindsMatch | base64ct/src/alphabet.rs:53-73 | among pairwise disjoint steps, the lookup gives the value of the step that matches |
| Alphabets.Decode6Bits | base64ct/src/alphabet.rs:53-73 | the branch-free loop over disjoint steps returns the value of the step that matches, or -1 for a foreign character |
| Alphabets.Encode6Bits | base64ct/src/alphabet.rs:93-104 | the branch-free encoder applies exactly the threshold comparisons, and its accumulator stays a byte |
| Alphabets.ShippedAlphabetsAreValid | base64ct/src/alphabet/standard.rs:1-54 | the two tables of each of the six alphabets are disjoint and mutually inverse, and padding and newlines are foreign to all of them |
| Alphabets.DocumentedCharacters | base64ct/src/alphabet/standard.rs:5-54 | the character of every value in each of the six alphabets is the documented one, and the bit order is |
| Alphabets.GroupRoundTrip | base64ct/src/alphabet.rs:36-90 | three bytes come back from their four characters, in both bit orders |
| Alphabets.GroupIsCanonical | base64ct/src/alphabet.rs:36-90 | four characters come back from the three bytes they decode to |
| Alphabets.Encode3Bytes | base64ct/src/alphabet.rs:77-90 | the bit operations write the four characters of the group and nothing else |
| Alphabets.Decode3Bytes | base64ct/src/alphabet.rs:36-50 | the result has its high bits set exactly when the block holds a foreign character; otherwise the three bytes of the group are written |
| Base64Numbers.GroupIsNumber | base64ct/src/alphabet.rs:36-90 | four groups of six bits in base 64 are three bytes in base 256, in both bit orders |
| Base64Numbers.TextIsNumber | base64ct/src/encoding.rs:185-232 | the text of any data, read in base 64, is the data read in base 256, after the spare bits have been added |
| Base64Numbers.TextIsReversedNumber | base64ct/src/alphabet/shacrypt.rs:20-69 | the same in the other bit order, least significant digits first |
| Base64Numbers.PaddedText | base64ct/src/encoding.rs:185-232 | padded text is a multiple of four characters, the last ones of which are equals signs |
| Codec.EncodedLength | base64ct/src/encoding.rs:364-377 | the precomputed length is the length of the encoding |
| Codec.EncodedLenFitsUsize | base64ct/src/encoding.rs:250-252 | the length computation never overflows for input that fits in memory |
| Codec.EncodedConcat | base64ct/src/encoding.rs:185-232 | encoding is a homomorphism on whole blocks |
| Codec.EncodedPadding | base64ct/src/encoding.rs:185-232 | padded text is the unpadded text and padding characters |
| Codec.EncodedDecodes | base64ct/src/encoding.rs:106-170 | block-by-block decoding undoes encoding |
| Codec.DecodedReencodes | base64ct/src/encoding.rs:301-337 | text whose last block encodes again to itself is the encoding of its decoding |
| Codec.EncodedUnpads | base64ct/src/encoding.rs:265-297 | the padding of an encoding is recognised and removed exactly |
| Codec.UnpaddedPart | base64ct/src/encoding.rs:265-297 | text whose padding is accepted is an encoding exactly when the part before the padding is the unpadded encoding |
| Codec.EncodedInjective | base64ct/src/encoding.rs:185-232 | no two inputs share an encoding |
| Codec.Encode | base64ct/src/encoding.rs:185-232 | writes exactly the encoding, succeeds exactly when it fits, and leaves the rest of the buffer alone |
| Codec.ValidateLastBlock | base64ct/src/encoding.rs:301-337 | accepts exactly when the last block of the data encodes to the last block of the text |
| Codec.Decode | base64ct/src/encoding.rs:65-102 | returns the data of the text, or says whether the buffer is too small or the text is no encoding |
| Codec.DecodesExactlyEncodings | base64ct/src/encoding.rs:65-102 | decoding accepts exactly the image of encoding, padded or not: encodings are canonical |
| Codec.DecodeInPlace | base64ct/src/encoding.rs:106-170 | the result is the block-by-block decoding of the original contents: nothing is read after it has been overwritten; agrees with decode on all that decode accepts |
| Codec.DecodesIfSpareBitsClear | base64ct/src/encoding.rs:301-337 | among the texts that pass all other checks, those with clear spare bits in the last character decode, and no others, in both bit orders |
| Codec.InPlaceAcceptsSpareBits | base64ct/src/encoding.rs:36-39 | AB passes every check of decoding in place, but decoding refuses it, because its last character has a spare bit set |
| Lines.WrapAppend | base64ct/src/encoder.rs:264-303 | appending a line's worth of text inserts at most one line ending, where the last line is full |
| Lines.WrappedLength | base64ct/src/encoder.rs:264-303 | length of wrapped text |
| Lines.WrappedByPosition | base64ct/src/encoder.rs:264-303 | where every character and every newline of wrapped text is, and which newline |
| Lines.WrappedIsWrapping | base64ct/src/encoder.rs:264-303 | wrapping with one line ending is a wrapping in the general sense |
| Lines.TextOfWrapping | base64ct/src/decoder.rs:505-541 | reading lines undoes wrapping at any width, whatever mixture of CR, LF and CRLF ends the lines |
| Lines.TextOfContiguous | base64ct/src/decoder.rs:505-541 | text without newlines is read as one line |
| Lines.TextIsExactly | base64ct/src/decoder.rs:505-541 | exactly which input is read as which text: full lines with any newline behind each, and a last line with or without one |
| StreamingEncoder.LayoutStep | base64ct/src/encoder.rs:155-166 | one step of the encoder extends the laid-out text of the whole |
| StreamingEncoder.FitsPrefix | base64ct/src/encoder.rs:79-111 | if a longer text fits, so does every prefix: a run that fails early could not have succeeded |
| StreamingEncoder.FitsStep | base64ct/src/encoder.rs:264-303 | a step fits exactly when the laid-out whole fits; a line ending that would fill the output exactly is refused |
| StreamingEncoder.ExactFitIsRefused | base64ct/src/encoder.rs:285-291 | eight characters in lines of four take nine bytes, but do not fit into nine |
| StreamingEncoder.BlockBuffer.Fill | base64ct/src/encoder.rs:199-206 | fills the buffer with the first bytes of the input and returns the others |
| StreamingEncoder.LineWrapper.InsertNewlines | base64ct/src/encoder.rs:264-303 | splits the new text at the end of the line by shifting it in place; fails exactly when no byte would remain behind it |
| StreamingEncoder.LineWrapper.WrapBlocks | base64ct/src/encoder.rs:255-261 | caps the number of blocks at the end of the line |
| StreamingEncoder.Encoder.New | base64ct/src/encoder.rs:42-58 | an empty output buffer is refused |
| StreamingEncoder.Encoder.NewWrapped | base64ct/src/encoder.rs:64-73 | widths below 4 and empty output buffers are refused |
| StreamingEncoder.Encoder.ProcessBuffer | base64ct/src/encoder.rs:143-152 | consumes what fills the block buffer, and encodes it when it is full |
| StreamingEncoder.Encoder.PerformEncode | base64ct/src/encoder.rs:155-166 | lays out the encoding of the block behind what has been written, and fails exactly when that does not fit |
| StreamingEncoder.Encoder.Encode | base64ct/src/encoder.rs:79-111 | after any call the output is the laid-out encoding of the whole blocks consumed; fails exactly when that does not fit |
| StreamingEncoder.Encoder.FinishWithRemaining | base64ct/src/encoder.rs:125-134 | the output is the laid-out one-shot encoding of everything consumed; fails exactly when that does not fit |
| StreamingDecoder.LineReader.DecodedLen | base64ct/src/decoder.rs:432-499 | the prediction, from a 4-byte tail buffer, is a function of the joined text of all lines |
| StreamingDecoder.PredictionIsExact | base64ct/src/decoder.rs:432-499 | for every encoding the prediction is the length of its data |
| StreamingDecoder.PredictionOfDecoded | base64ct/src/decoder.rs:432-499 | whenever a text that is accepted decodes, the prediction is the length of its data |
| StreamingDecoder.EncodingsAreAccepted | base64ct/src/decoder.rs:49-103 | a decoder can be created for every non-empty encoding, however its lines are broken |
| StreamingDecoder.WhyRefused | base64ct/src/decoder.rs:432-499 | which input a decoder is refused for, and with which error |
| StreamingDecoder.Decoder.NothingRemainsMeansDecoded | base64ct/src/decoder.rs:432-499 | the prediction is never too small: once as much has been delivered, the text decodes |
| StreamingDecoder.ConsumePiece | base64ct/src/decoder.rs:240-247 | decoding the text piece by piece decodes the whole |
| StreamingDecoder.NextPiece | base64ct/src/decoder.rs:106-161 | the next piece of an encoding is the encoding of the next piece of its data |
| StreamingDecoder.PieceOfReadable | base64ct/src/decoder.rs:106-161 | a piece of any text decodes if the readable data reaches into its last block |
| StreamingDecoder.BlockBuffer.Fill | base64ct/src/decoder.rs:298-312 | holds the decoded block |
| StreamingDecoder.BlockBuffer.Take | base64ct/src/decoder.rs:315-326 | delivers the next bytes of the block |
| StreamingDecoder.Decoder.New | base64ct/src/decoder.rs:49-58 | a decoder for one line; what is refused, and with which error |
| StreamingDecoder.Decoder.NewWrapped | base64ct/src/decoder.rs:86-97 | a decoder for wrapped text of width at least 4; what is refused, and with which error |
| StreamingDecoder.Decoder.FinishedMeansDecoded | base64ct/src/decoder.rs:191-193 | when everything has been read, the text is the encoding of what was delivered |
| StreamingDecoder.Decoder.DeliveredIsPrefix | base64ct/src/decoder.rs:106-161 | what has been delivered is a prefix of the data |
| StreamingDecoder.Decoder.FinishedMeansNothingRemains | base64ct/src/decoder.rs:186-193 | on well-formed text the decoder is finished exactly when the remaining length is zero, and the remaining length is what has not been delivered |
| StreamingDecoder.Decoder.AdvanceLine | base64ct/src/decoder.rs:228-237 | moves to the next line without losing text |
| StreamingDecoder.Decoder.FillBlockBuffer | base64ct/src/decoder.rs:196-225 | decodes one block, which may be split over two lines, and makes progress |
| StreamingDecoder.Decoder.Decode | base64ct/src/decoder.rs:106-161 | delivers the next consecutive bytes of the data; on any text without blank lines it succeeds exactly when that many bytes are readable, and the error is an invalid length or, if the text is no encoding, an invalid encoding |
| Streaming.EncodeAll | base64ct/src/encoder.rs:79-166 | whole runs: for any split into calls the output is the laid-out one-shot encoding, and the run succeeds exactly when that fits |
| Streaming.PrefixFits | base64ct/src/encoder.rs:79-111 | if the whole run fits, so does every prefix of its calls |
| Streaming.LaidOutTextIsWellFormed | base64ct/src/decoder.rs:49-103 | every encoding, on one line or wrapped with any mixture of newlines, is accepted and predicted correctly |
| Streaming.DecodeAll | base64ct/src/decoder.rs:106-161 | whole runs: for any sizes of reads each read delivers the next bytes of the data; finished exactly when all is delivered; asking for more is an invalid length |
| PemGrammar.StripPreamble | pem-rfc7468/src/grammar.rs:61-86 | stops at the first boundary at the start of a line; a NUL byte before it is an error |
| PemGrammar.PreambleIsStripped | pem-rfc7468/src/grammar.rs:61-86 | any lines without NUL, none of which starts with the boundary, are stripped in front of a document |
| PemGrammar.StrippedIsPreamble | pem-rfc7468/src/grammar.rs:61-86 | conversely, whatever is accepted is such a preamble and a text that starts with the boundary |
| PemGrammar.WithoutBoundary | pem-rfc7468/src/grammar.rs:61-86 | an input is refused for its preamble exactly when no line starts with the boundary before a NUL byte |
| PemGrammar.SplitLabel | pem-rfc7468/src/grammar.rs:133-165 | computes the label, as the scan character by character defines it, and the text behind the header line |
| PemGrammar.ValidateLabel | pem-rfc7468/src/grammar.rs:171-192 | accepts exactly the labels of allowed characters without two blanks in a row |
| PemGrammar.LabelCharacters | pem-rfc7468/src/grammar.rs:30-46 | labels are printable ASCII without hyphens, and single blanks or tabs |
| PemGrammar.SplitOfValidLabel | pem-rfc7468/src/grammar.rs:133-165 | an encoded label is found again, except when it starts with a blank: that label can be encoded but not decoded |
| PemGrammar.SplitIsLabel | pem-rfc7468/src/grammar.rs:133-165 | conversely, whatever is accepted is a valid label that does not start with a blank, the delimiter, a newline and the rest |
| PemDocument.CheckedSumIsExact | pem-rfc7468/src/encoder.rs:131-152 | the checked sum of the parts fails exactly on overflow |
| PemDocument.DocumentInCharacters | pem-rfc7468/src/lib.rs:80-86 | the document in characters: padded standard Base64 between the two boundary lines |
| PemDocument.EncodedLenIsExact | pem-rfc7468/src/encoder.rs:80-84 | the precise length is that of the document, and fails exactly on overflow |
| PemDocument.MaskedEstimate | pem-rfc7468/src/encoder.rs:61-66 | the bit-masked estimate of the Base64 length is exact |
| PemDocument.EstimateIsExact | pem-rfc7468/src/encoder.rs:51-70 | the estimate from the input length alone is the length of the document, unless four times the input length overflows |
| PemDocument.Parse | pem-rfc7468/src/decoder.rs:203-238 | the position-by-position parser computes the functional one, errors included |
| PemDocument.ParsesExactlyDocuments | pem-rfc7468/src/decoder.rs:203-238 | the parser accepts exactly the documents that consist of a preamble, the boundary, a valid label without leading blank, the delimiter, a newline, the text, a newline and the footer with the same label; CR, LF and CRLF may be mixed |
| PemDocument.WhyNotParsed | pem-rfc7468/src/decoder.rs:203-238 | which error each text gets that is no document |
| PemDocument.ParsesDocument | pem-rfc7468/src/decoder.rs:203-238 | an encoded document parses to its label and text, behind any preamble, with any line ending |
| PemDocument.DetectsWidth | pem-rfc7468/src/decoder.rs:246-253 | the detected width is that of the first line |
| PemDocument.DocumentRoundTrip | pem-rfc7468/src/decoder.rs:30-43 | decoding an encoded document behind any preamble returns its label and data at every width of at least 4, exactly unless the label starts with a blank or there is no data |
| PemDocument.DetectedRoundTrip | pem-rfc7468/src/decoder.rs:106-109 | the same at the detected width |
| PemEncoder.WriteParts | pem-rfc7468/src/encoder.rs:214-230 | writes the parts one after the other, and fails exactly when they do not fit |
| PemEncoder.Encoder.NewWrapped | pem-rfc7468/src/encoder.rs:206-237 | an encoder that has written the header; which arguments are refused, and with which error |
| PemEncoder.Encoder.Encode | pem-rfc7468/src/encoder.rs:250-253 | consumes the input, and fails exactly when its whole blocks do not fit |
| PemEncoder.Encoder.Finish | pem-rfc7468/src/encoder.rs:264-285 | the buffer holds exactly the document of everything consumed; succeeds exactly when that fits; the result is its length |
| PemEncoder.DocumentIsAscii | pem-rfc7468/src/encoder.rs:101-117 | a document is 7-bit text: the last check of encode never fails |
| PemEncoder.Encode | pem-rfc7468/src/encoder.rs:87-118 | writes exactly the document; succeeds exactly when the label is valid and the document fits, and says what does not fit otherwise |
| PemEncoder.EncodeString | pem-rfc7468/src/encoder.rs:122-128 | a buffer of the precomputed length always suffices and is filled; a length that overflows is an error |
| PemDecoder.Decoder.NewWrapped | pem-rfc7468/src/decoder.rs:94-100 | a decoder exists exactly when the document parses and its text is accepted; otherwise the error says why |
| PemDecoder.Decoder.NewDetectWrap | pem-rfc7468/src/decoder.rs:106-109 | the same at the detected width |
| PemDecoder.Decoder.Decode | pem-rfc7468/src/decoder.rs:120-122 | delivers the next bytes of the data, or says whether there are too few or the text is no encoding |
| PemDecoder.PayloadIsAccepted | pem-rfc7468/src/decoder.rs:94-100 | a document with a payload is accepted and its length predicted |
| PemDecoder.ParsingErrors | pem-rfc7468/src/decoder.rs:203-238 | the errors of the parser are never those that are mapped to disallowed headers |
| PemDecoder.Decode | pem-rfc7468/src/decoder.rs:30-43 | returns a label and data that encode to the text of the document; every document with a payload decodes, given room; a text that is no encoding is refused for its headers if and only if there is a colon |
| Calendar.MonthTableIsCalendar | der/src/datetime.rs:118-134 | the table of month starts and lengths agrees with counting days month by month |
| Calendar.DayAfter | der/src/datetime.rs:118-134 | the Gregorian calendar day after day, with the lengths of its months and its leap years |
| Calendar.KnownDurations | der/src/asn1/utc_time.rs:261-271 | the date of the tests, and both ends of the range |
| Calendar.LeapYearsAreCounted | der/src/datetime.rs:113-114 | the closed form is the number of leap years counted one by one since 1970; the types of its intermediate values keep it in the 16-bit range |
| Calendar.DaysFromLeapYears | der/src/datetime.rs:146 | days before a year, from the number of leap years |
| Calendar.RangeOfYears | der/src/datetime.rs:150-152 | the durations in range are exactly those of the years up to 9999 |
| Calendar.FromYmdHmsIsExact | der/src/datetime.rs:95-163 | accepts exactly the valid Gregorian date-times from 1970 to 9999 and stores the seconds since the epoch |
| Calendar.DateTimesAreBuilt | der/src/datetime.rs:95-163 | a date-time is consistent exactly when it is rebuilt from its own fields |
| Calendar.OrderIsDuration | der/src/datetime.rs:31-57 | order on the fields is order on the durations, and equal durations are equal dates |
| Calendar.SplitCycles | der/src/datetime.rs:184-213 | the reduction by cycles of 400, 100, 4 and 1 years yields the year that starts in March and the day of it |
| Calendar.LeapDayYear | der/src/datetime.rs:203-211 | the last day of a four-year cycle is a leap day, except at the end of three of four centuries |
| Calendar.CalendarDay | der/src/datetime.rs:215-231 | the calendar date of a day of a year that starts in March |
| Calendar.FromUnixDuration | der/src/datetime.rs:171-245 | every count of seconds up to the maximum is that of the date it is converted to, and every date-time comes back from its own duration |
| DateTimeText.TwoDigits | der/src/datetime.rs:440-463 | two digits and a number below 100 determine each other |
| DateTimeText.FourDigits | der/src/datetime.rs:466-472 | four digits and a year determine each other |
| DateTimeText.ParsesExactlyDisplayed | der/src/datetime.rs:311-346 | parsing accepts exactly the texts that formatting produces |
| DateTimeText.DisplayInCharacters | der/src/datetime.rs:349-357 | every field and every separator of the text is in its place |
| DateTimeText.DecodeUtcTime | der/src/asn1/utc_time.rs:99-145 | UTCTime values and the date-times from 1970 to 2049 determine each other |
| DateTimeText.UtcTimeInCharacters | der/src/asn1/utc_time.rs:99-145 | every field of a UTCTime value is in its place; the last year is 2049 |
| Base128Numbers.OctetsByLogarithm | der/src/tag.rs:525-535 | number of base-128 octets from the binary logarithm |
| Base128Numbers.ShiftsLeft | der/src/tag.rs:550-559 | the shifts that leave something are those below the number of octets |
| Base128Numbers.OctetsAreNumber | der/src/tag.rs:537-563 | the octets of a number are its digits in base 128, marked and minimal |
| DerTag.TagLenIsExact | der/src/tag.rs:525-535 | the computed length of a tag is that of its octets, at most 6 |
| DerTag.UniversalOctets | der/src/tag.rs:381-412 | the identifier octet of each universal type |
| DerTag.ClassOctets | der/src/tag.rs:537-563 | class, constructed bit and number of the other tags, for all 32-bit numbers |
| DerTag.WhyNoTag | der/src/tag.rs:270-331 | which octets are no tag, and with which error |
| DerTag.TagIsReadExactly | der/src/tag.rs:270-331 | a tag is read exactly where its octets are, for all 32-bit tag numbers: canonical and prefix-free |
| DerTag.ReadIsMinimal | der/src/tag.rs:487-520 | accepted long-form tag numbers are at least 31 and have no leading zeros |
| DerLength.LengthLenIsExact | der/src/length.rs:338-346 | the computed length of a length is that of its octets |
| DerLength.LengthIsNumber | der/src/length.rs:348-364 | length octets: a short length is its own octet, a long one is counted and in base 256 without leading zeros |
| DerLength.WhyNoLength | der/src/length.rs:291-334 | which octets are no length, and with which error |
| DerLength.LengthIsReadExactly | der/src/length.rs:291-334 | a length is read exactly where its shortest octets are: canonical and prefix-free |
| DerHeader.HeaderLenIsExact | der/src/header.rs:129-131 | the computed length of a header is that of its octets, at most 11; the sum never overflows |
| DerHeader.ConstructedBitOfTag | der/src/header.rs:100-125 | the constructed bit that was read is that of the tag |
| DerHeader.HeaderIsReadExactly | der/src/header.rs:100-125 | decoding a header accepts exactly its encoding, and leaves the rest |
| DerHeader.WhyNoHeader | der/src/header.rs:100-125 | an overlong length names the tag; other errors are passed on |
| DerHeader.HeaderIsIncomplete | der/src/header.rs:100-125 | every beginning of a header is incomplete |
| DerHeader.HeadersArePrefixFree | der/src/header.rs:100-137 | no encoding of a header is the beginning of another |
| DerReader.SliceReader.ReadSlice | der/src/reader/slice.rs:119-134 | returns the next bytes, fails at the end of the nested input, with an overflow exactly when the end position has more than 32 bits, and fails for good once failed |
| DerReader.SliceReader.Finish | der/src/reader/slice.rs:150-160 | trailing data and earlier failures are errors |
| DerReader.ParseParts | der/src/tag.rs:487-520 | the loop over the octets of a tag number, with its overflow and minimality checks |
| DerReader.DecodeTag | der/src/tag.rs:270-331 | reads exactly the octets of the tag and returns its constructed bit |
| DerReader.DecodeLength | der/src/length.rs:291-334 | reads exactly the octets of the length, with the errors of the source |
| DerReader.DecodeHeader | der/src/header.rs:100-125 | reads exactly the octets of the header; an overlong length names the tag |
| DerReader.TlvBytes | der/src/reader.rs:236-240 | returns the next value with its header: the computed header length is the number of octets it was read from; a reader that has failed stays failed |
| DerWriter.SliceWriter.Write | der/src/writer/slice.rs:125-150 | appends all or nothing |
| DerWriter.EncodeTag | der/src/tag.rs:537-563 | writes exactly the octets of the tag |
| DerWriter.EncodeLength | der/src/length.rs:348-364 | writes exactly the octets of the length |
| DerWriter.EncodeHeader | der/src/header.rs:133-136 | writes exactly the octets of the header |
| DerTree.SumFrom | der_derive/src/sequence.rs:132-136 | the checked sum of the field lengths fails exactly on overflow, wherever it starts |
| DerTree.LengthIsChecked | der/src/encode.rs:118-130 | the checked length is the length, and an overflow is reported exactly when that has more than 32 bits |
| DerTree.Encoding | der/src/encode.rs:118-130 | the encoding of a nested value has exactly the length computed in advance |
| DerTree.EncodingByParts | der/src/encode.rs:126-130 | the encoding of a leaf and of a struct, with its fields in order |
| DerTree.TlvIsDecodedExactly | der/src/decode.rs:106-117 | decoding a derived SEQUENCE accepts exactly the encodings of its values that are not nested too deep, and leaves the rest |
| DerTree.OtherTag | der/src/tag.rs:463-468 | another tag is reported as the actual one, and that of the type as the expected one |
| DerTree.PartOfEncoding | der/src/reader/slice.rs:90-117 | every beginning of an encoding is incomplete |
| DerTree.TooDeep | der/src/reader/position.rs:75-80 | a value that is nested too deep anywhere is refused for that |
| DerTree.MoreThanFields | der/src/reader/slice.rs:109-114 | octets behind the fields of a struct are trailing data |
| DerTree.RoundTrip | der/src/decode.rs:106-117 | a value whose length does not overflow comes back from its encoding if and only if it is not nested too deep |
| DerCodec.ReadNested | der/src/reader/slice.rs:90-117 | a nested value is read within its length and must take all of it, or the error says what is wrong; the outer input and the depth are restored in success and in failure |
| DerCodec.DecodeStruct | der_derive/src/sequence.rs:90-120 | the derived decoder reads the fields in order, up to the first that is wrong |
| DerCodec.Decode | der/src/decode.rs:106-117 | header, tag check and nested value: the value, or the error of whatever is wrong first |
| DerCodec.DecodedExactly | der/src/decode.rs:62-67 | from_der accepts exactly the encodings of the values of the type that are nested at most 64 deep, each as one value |
| DerCodec.RefusedFor | der/src/decode.rs:62-67 | a part of an encoding, more than an encoding, and too deep a value, each with its error |
| DerCodec.FromDer | der/src/decode.rs:62-67 | accepts exactly the encodings of the values of the type that are nested at most 64 deep, and gives the error of whatever is wrong first; for another tag, which one |
| DerCodec.EncodeStruct | der_derive/src/sequence.rs:122-147 | the derived encoder writes the fields in order |
| DerCodec.Encode | der/src/encode.rs:126-130 | writes exactly the encoding, and succeeds exactly when its length does not overflow and it fits; otherwise the error says why |
| DerCodec.ToDer | der/src/encode.rs:87-115 | the encoding, unless its length overflows: the length check never fails |
| ObjectIdentifiers.ArcIsRead | const-oid/src/arcs.rs:66-101 | an arc is read back from its base-128 octets |
| ObjectIdentifiers.ArcsOfOctets | const-oid/src/arcs.rs:51-103 | the arcs of an identifier are those it was built from |
| ObjectIdentifiers.OctetsByArc | const-oid/src/encoder.rs:54-79 | the octets arc by arc: 40 times the first plus the second, then each in base 128 |
| ObjectIdentifiers.WhyNoArcs | const-oid/src/arcs.rs:51-103 | which octets are no identifier, and with which error |
| ObjectIdentifiers.RootArcs | const-oid/src/arcs.rs:122-166 | the first two arcs share an octet, which is at most 119 |
| ObjectIdentifiers.ReadArcIsMinimal | const-oid/src/arcs.rs:66-101 | the octets of an arc are minimal unless the first is 0x80 |
| ObjectIdentifiers.OctetsOfArcs | const-oid/src/arcs.rs:66-101 | accepted octets are those of their arcs if and only if no arc starts with 0x80, and are never shorter |
| ObjectIdentifiers.BodyIsPadded | const-oid/src/arcs.rs:66-101 | accepted octets are those of their arcs, each behind the octets 0x80 that pad it: arcs and paddings together determine the octets |
| OidEncoder.Base128LenIsExact | const-oid/src/encoder.rs:120-128 | the length ranges agree with the octets |
| OidEncoder.Base128Byte | const-oid/src/encoder.rs:131-137 | the octet at a position, by shifting |
| OidEncoder.EncodeBase128 | const-oid/src/encoder.rs:96-116 | the loop puts the octets of the arc at the cursor, or refuses those that do not fit |
| OidEncoder.FeedBody | const-oid/src/encoder.rs:54-79 | the state machine holds the octets of the arcs it was fed |
| OidEncoder.FromArcs | const-oid/src/lib.rs:110-118 | feeds the arcs one after the other, up to the first that is refused |
| OidEncoder.BuiltFromArcs | const-oid/src/lib.rs:110-118 | which arcs make an identifier, which one, and which error each of the others gives |
| OidText.TextIsRead | const-oid/src/parser.rs:42-94 | printed arcs are fed to the encoder one after the other |
| OidText.ParsedTextIsBuilt | const-oid/src/parser.rs:42-94 | parsing printed arcs agrees with building from the arcs, in success and in failure |
| OidText.TextByArc | const-oid/src/lib.rs:377-392 | the text arc by arc, with dots between them |
| OidText.OtherCharacterIsRefused | const-oid/src/parser.rs:42-94 | a character that is neither a digit nor a dot is the error |
| OidText.DotsAreRefused | const-oid/src/parser.rs:42-94 | a dot at the end and two dots, each with its error |
| OidText.LargeNumberIsRefused | const-oid/src/parser.rs:42-94 | a number of more than 32 bits is too big |
| OidText.ParsedWasFed | const-oid/src/parser.rs:42-94 | whatever is parsed was built from some arcs, and printing them gives the same text exactly when no number has a leading zero |
| OidText.ParsedIsReparsed | const-oid/src/lib.rs:101-107 | printing a parsed identifier and parsing again gives the same identifier |
| OidText.TextIsCanonical | const-oid/src/parser.rs:61-77 | an identifier prints as the text it was parsed from if and only if no arc was written with a leading zero |
| OidText.LeadingZerosAreAccepted | const-oid/src/parser.rs:61-77 | two texts of the same identifier, one with a leading zero |
| OidCodec.Arcs.TryNext | const-oid/src/arcs.rs:51-103 | returns the arcs one after the other, and the error behind them |
| OidCodec.FromBytes | const-oid/src/lib.rs:121-132 | accepts exactly the octets that fit and whose arcs can all be read; iterating over them never fails |
| OidCodec.CountArcs | const-oid/src/lib.rs:346-348 | the number of arcs |
| OidCodec.Parent | const-oid/src/lib.rs:148-157 | the identifier of all arcs but the last, in minimal octets; there is none exactly with two arcs |
| OidCodec.PushedArcs | const-oid/src/lib.rs:160-166 | a child is well formed and has exactly one more arc; fails exactly when it does not fit |
| OidCodec.ParentOfPushed | const-oid/src/lib.rs:148-166 | parent undoes push_arc if and only if no arc of the identifier starts with 0x80; otherwise it gives the minimal form |
| OidCodec.BuiltIsMinimal | const-oid/src/lib.rs:110-118 | identifiers built from arcs are well formed and minimal |
| OidCodec.PaddedArcIsAccepted | const-oid/src/arcs.rs:69-91 | octets that are accepted although no encoder writes them; the identifier is not the parent of its child |
| OidCodec.StartsWith | const-oid/src/lib.rs:169-189 | whether the octets start with the other octets |
| OidCodec.PrefixOfArcs | const-oid/src/lib.rs:169-189 | octets start with other octets if and only if the arcs start with the other arcs, padded alike; between minimal identifiers nothing is padded |
| OidCodec.Display | const-oid/src/lib.rs:377-392 | prints all arcs with dots between them |
| Decimals.DigitsAreDecimal | const-oid/src/lib.rs:377-392 | numbers are printed in decimal ASCII digits without leading zeros |
| OidCodec.DisplayedIsParsed | const-oid/src/lib.rs:377-392 | the text of an identifier parses to its minimal form; to itself if and only if it is minimal |
| PhcText.SplitsJoined | phc/src/params.rs:176-193 | splitting undoes joining pieces that do not contain the separator |
| PhcText.JoinsSplit | phc/src/params.rs:176-193 | joining undoes splitting |
| PhcText.Pieces.Next | phc/src/params.rs:237-247 | the pieces come out one after the other |
| PhcText.NewIdent | phc/src/ident.rs:56-80 | accepts exactly 1 to 32 lower-case letters, digits and minus signs |
| PhcText.NewValue | phc/src/value.rs:49-58 | accepts exactly up to 64 allowed characters, and says what is wrong otherwise |
| PhcText.AllowedCharacters | phc/src/value.rs:196-199 | the characters of identifiers and values, and the separators |
| PhcText.ParseDecimal | phc/src/value.rs:120-141 | accepts exactly 32-bit numbers without leading zeros |
| PhcText.DecimalsAreDigits | phc/src/value.rs:120-141 | decimals and the digits of their numbers determine each other |
| PhcParams.PairsAreTexts | phc/src/params.rs:176-193 | a pair and its text determine each other |
| PhcParams.ParamsAreText | phc/src/params.rs:166-201 | parameter texts and lists of pairs determine each other |
| PhcParams.PairInCharacters | phc/src/params.rs:141-160 | the text of the pairs: commas between them, an equals sign in each |
| PhcParams.WhyNoPair | phc/src/params.rs:176-193 | a wrong name and a missing value, each with its error |
| PhcParams.WhyNoValue | phc/src/params.rs:176-193 | a value that is too long, a wrong character, a second equals sign, each with its error |
| PhcParams.FirstErrorDecides | phc/src/params.rs:176-193 | of several wrong pairs, the first decides the error |
| PhcParams.Iter.Next | phc/src/params.rs:250-268 | the pairs come out one after the other, in order; the unwraps never fail |
| PhcParams.ParamsString.WriteStr | phc/src/string_buf.rs:92-107 | appends all or nothing |
| PhcParams.ParamsString.Get | phc/src/params.rs:116-126 | the value of the first pair with the name, and nothing exactly if there is none |
| PhcParams.ParamsString.Add | phc/src/params.rs:141-160 | adds the pair at the end; refuses exactly names that are taken and texts that get too long; after a failure, from any buffer, the text is unchanged and the bytes behind it are overwritten by exactly the parts that fit |
| PhcParams.CommaIsLeftBehind | phc/src/params.rs:141-160 | a pair that does not fit behind 126 bytes of text, and leaves its comma in the buffer |
| PhcParams.ParamsString.AddStr | phc/src/params.rs:80-88 | the same with checked name and value |
| PhcParams.ParamsString.AddDecimal | phc/src/params.rs:74-77 | the same with the digits of a number |
| PhcParams.ParamsString.FromStr | phc/src/params.rs:166-201 | accepts exactly the texts of pairs that fit, and gives the error of the first piece that is wrong |
| PhcParams.RunKeeps | phc/src/params.rs:141-160 | every run of calls keeps distinct names and a text that fits and parses back to the pairs, in order |
| PhcParams.RunOneMore | phc/src/params.rs:141-160 | what one more call does to the pairs |
| PhcParams.WhyNotAdded | phc/src/params.rs:80-88 | which error a call gives |
| PhcParams.AddAll | phc/src/params.rs:141-160 | after any run of calls on a new parameter string, failed ones included, it holds exactly the pairs that could be added |
| PhcHash.SaltLengths | phc/src/salt.rs:158-175 | the limits on the text of a salt are those on its bytes |
| PhcHash.ParseSalt | phc/src/salt.rs:158-175 | accepts exactly the unpadded Base64 of 8 to 48 bytes, leaves zeros behind them, and says what is wrong otherwise |
| PhcHash.DecodeOutput | phc/src/output.rs:176-181 | accepts exactly the unpadded Base64 of 10 to 64 bytes, and says what is wrong otherwise |
| PhcHash.LooksLikeVersion | phc/src/lib.rs:131-137 | the parameters that are read as a version are exactly a single pair named v |
| PhcHash.PrintedIsParsed | phc/src/lib.rs:108-175 | every canonical hash is parsed from its text |
| PhcHash.ParsedIsPrinted | phc/src/lib.rs:108-175 | whatever is parsed prints as the text it was parsed from |
| PhcHash.ParsesExactlyPrinted | phc/src/lib.rs:108-175 | the parser accepts exactly the texts of canonical hashes |
| PhcHash.RoundTrip | phc/src/lib.rs:202-224 | printing and parsing is the identity if and only if the buffer of the parameters is clean, a hash comes with a salt, and it is not the case that the version is absent and the parameters are a single pair named v |
| PhcHash.HashInCharacters | phc/src/lib.rs:202-224 | the text of a hash in characters: each field that is present behind a dollar sign |
| PhcHash.WhyNoAlgorithm | phc/src/lib.rs:108-123 | a missing field and a wrong algorithm, each with its error |
| PhcHash.FirstWrongField | phc/src/lib.rs:125-166 | behind valid fields, the first wrong one decides the error |
| PhcHash.WhyNoField | phc/src/salt.rs:158-175 | what is wrong with a version, parameters, a salt or a hash |
| PhcHash.ParameterIsReadAsVersion | phc/src/lib.rs:131-137 | a hash whose parameter v=1 comes back as its version |
| PhcHash.Parse | phc/src/lib.rs:108-175 | the parser that carries a field over to the next optional one computes the parse of the list of fields, errors included |
| PhcHash.Display | phc/src/lib.rs:202-224 | prints the fields that are present, the hash only behind a salt |

## Left out

- `base16ct` and `base32ct`: the same shape as the one-shot Base64 codec, without streaming and without checks of the last block.
- `cmpv2`, `crmf`, `cms`, `gss-api`, `pkcs1`, `pkcs12`, `mcf`: type declarations, or wrappers over cryptography that is not part of this model.
- `decode_vec`, `encode_string` and `decode_to_end` of `base64ct`, `decode_vec` of `pem-rfc7468`: allocation around the calls that are modelled.
- `OPTIONAL`, `DEFAULT` and context-specific fields of derived SEQUENCEs, and all value types but strings of octets; `DerOrd`.
- BER and indefinite lengths: the `ber` feature is off.
- `add_b64_bytes` and `FromIterator` of `ParamsString`: the first skips the check for duplicates and leaves partial text on error, the second panics where `add_str` fails.
- The generic buffer size of `ObjectIdentifier`: the model uses the default of 39 octets.
- Sub-second parts of durations, which `from_unix_duration` ignores below the maximum; conversions to and from `SystemTime`.
- Error positions and messages, `io::Read` and `io::Write` adapters, zeroizing, random salts, constant-time behaviour, UTF-8.
- PemDecoder.Decode: when a blank line follows the text, only what is returned on success is stated.
- StreamingDecoder.Decoder.Decode: when a blank line follows the text, which reads fail is not stated.
- PemEncoder.EncodeString: leaves out lengths between `isize::MAX` and `usize::MAX`, for which allocation panics.
