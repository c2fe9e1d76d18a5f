/** The buffered Base64 decoder over wrapped or contiguous text (base64ct/src/decoder.rs).

    Whatever the sizes of the reads and wherever the line breaks fall, the decoder delivers
    consecutive slices of the one-shot decoding of the text.
  */
module StreamingDecoder {
  import opened Bits
  import opened Alphabets
  import opened Codec
  import opened Lines
  import opened Slices
  import opened Wrappers

  // ----- the line reader -----

  class LineReader {
    var remaining: bytes
    const lineWidth: Option<nat>

    ghost predicate Valid() {
      lineWidth.Some? ==> lineWidth.value >= MIN_LINE_WIDTH
    }

    constructor (remaining: bytes, lineWidth: Option<nat>)
      ensures this.remaining == remaining && this.lineWidth == lineWidth
    {
      this.remaining, this.lineWidth := remaining, lineWidth;
    }

    /** Iterator step: the next line, an error, or the end. */
    method Next() returns (step: LineStep)
      modifies this
      ensures step == NextLine(old(remaining), lineWidth)
      ensures remaining == match step
                           case Line(_, rest) => rest
                           case End => []
                           case Malformed => old(remaining)
    {
      if lineWidth.Some? {
        var width := lineWidth.value;
        if |remaining| <= width {
          if remaining == [] {
            return End;
          }
          var last := TrimEnd(remaining);
          remaining := [];
          return Line(last, []);
        }
        var rest := remaining[width..];
        if |rest| >= 2 && rest[0] == CHAR_CR && rest[1] == CHAR_LF {
          rest := rest[2..];
        } else if rest[0] == CHAR_CR || rest[0] == CHAR_LF {
          rest := rest[1..];
        } else {
          return Malformed;
        }
        var line := remaining[..width];
        remaining := rest;
        step := Line(line, rest);
      } else if remaining != [] {
        var line := TrimEnd(remaining);
        remaining := [];
        step := if line == [] then End else Line(line, []);
      } else {
        step := End;
      }
    }

    /** The predicted length of the data, found by decoding only the last block.  It may be
        split over two lines, so the end of the previous line is kept in a 4-byte buffer. */
    method DecodedLen(e: Encoding) returns (r: Result<nat, Error>)
      requires Valid()
      ensures r == Predicted(e, remaining, lineWidth)
    {
      hide Decoded, PredictedOfText, NextLine, TrimEnd, Text;
      TextOfLine(remaining, lineWidth);
      var buffer := new u8[4];
      var lines := new LineReader(remaining, lineWidth);
      var step := lines.Next();
      if step.Malformed? {
        return Err(InvalidEncoding);
      } else if step.End? {
        return Ok(0);
      }
      var line := step.line;
      var base64Len := 0;
      ghost var before: bytes := [];
      assert before + line == line;
      while step.Line?
        invariant fresh(lines) && fresh(buffer) && buffer.Length == 4 && lines.lineWidth == lineWidth
        invariant base64Len == |before|
        invariant before != [] ==> |before| >= 4 && buffer[..] == before[|before| - 4..]
        invariant step.Line? && line == step.line && lines.remaining == step.rest
        invariant step.rest != [] ==> |line| >= 4
        invariant Text(remaining, lineWidth) == Prepend(before + line, Text(step.rest, lineWidth))
        decreases |lines.remaining|
      {
        base64Len := base64Len + |line|;
        TextOfLine(step.rest, lineWidth);
        step := lines.Next();
        match step {
          case Malformed =>
            return Err(InvalidEncoding);
          case Line(_, _) =>
            ghost var tail := line[|line| - 4..];
            CopyFromSlice(buffer, 0, line[|line| - 4..]);
            PrependAssociative(before + line, step.line, Text(step.rest, lineWidth));
            before := before + line;
            assert buffer[..] == buffer[0..0 + |tail|] == tail == before[|before| - 4..];
            line := step.line;
          case End =>
            assert before + line + [] == before + line;
            r := PredictedOf(e, buffer, line, base64Len, before);
            return;
        }
      }
    }

    /** The prediction, from the last line and the tail of the line before it. */
    method PredictedOf(e: Encoding, buffer: array<u8>, line: bytes, base64Len: nat, ghost before: bytes)
      returns (r: Result<nat, Error>)
      requires buffer.Length == 4 && base64Len == |before + line|
      requires before != [] ==> |before| >= 4 && buffer[..] == before[|before| - 4..]
      modifies buffer
      ensures r == PredictedOfText(e, before + line)
    {
      hide Decoded;
      var lastLen := LastBlockLen(base64Len);
      if base64Len < lastLen {
        return Err(InvalidLength);
      }
      ghost var text := before + line;
      var out := new u8[3];
      var block: bytes;
      if |line| < lastLen {
        var buffered := lastLen - |line|;
        var offset := 4 - buffered;
        for i := 0 to buffered
          invariant forall j :: 0 <= j < i ==> buffer[j] == old(buffer[offset + j])
          invariant forall j :: i <= j < 4 ==> buffer[j] == old(buffer[j])
        {
          buffer[i] := buffer[offset + i];
        }
        ghost var tail := buffer[..buffered];
        assert tail == before[|before| - buffered..];
        CopyFromSlice(buffer, buffered, line);
        block := buffer[..lastLen];
        assert block == tail + line == text[|text| - lastLen..];
      } else {
        block := line[|line| - lastLen..];
        assert block == text[|text| - lastLen..];
      }
      assert Codec.DecodedLen(UnpaddedLen(e, block)) <= 3;
      var decoded := Decode(e, block, out, 0, 3);
      match decoded {
        case Ok(n) =>
          assert |Decoded(e, text[|text| - lastLen..]).value| == n;
          r := Ok(Codec.DecodedLen(base64Len - lastLen) + n);
        case Err(error) =>
          assert error == InvalidEncoding;
          assert Decoded(e, text[|text| - lastLen..]) == None;
          r := Err(error);
      }
    }
  }

  ghost function Prepend(s: bytes, t: Option<bytes>): Option<bytes> {
    match t
    case None => None
    case Some(text) => Some(s + text)
  }

  lemma TextOfLine(remaining: bytes, lineWidth: Option<nat>)
    ensures Text(remaining, lineWidth) ==
            match NextLine(remaining, lineWidth)
            case End => Some([])
            case Malformed => None
            case Line(line, rest) => Prepend(line, Text(rest, lineWidth))
  {
  }

  lemma PrependAssociative(s: bytes, t: bytes, u: Option<bytes>)
    ensures Prepend(s, Prepend(t, u)) == Prepend(s + t, u)
  {
    if u.Some? {
      assert s + (t + u.value) == s + t + u.value;
    }
  }

  /** Length of the last block of `n` characters. */
  function LastBlockLen(n: nat): (len: nat)
    ensures 1 <= len <= 4
  {
    if n % 4 == 0 then 4 else n % 4
  }

  ghost function PredictedOfText(e: Encoding, text: bytes): Result<nat, Error> {
    var len := LastBlockLen(|text|);
    if |text| < len then Err(InvalidLength)
    else
      match Decoded(e, text[|text| - len..])
      case Some(d) => Ok(Codec.DecodedLen(|text| - len) + |d|)
      case None => Err(InvalidEncoding)
  }

  /** What `decoded_len` predicts, as a function of the whole text. */
  ghost function Predicted(e: Encoding, remaining: bytes, lineWidth: Option<nat>): Result<nat, Error> {
    if NextLine(remaining, lineWidth).End? then Ok(0)
    else
      match Text(remaining, lineWidth)
      case None => Err(InvalidEncoding)
      case Some(text) => PredictedOfText(e, text)
  }

  // ----- positions in a text -----

  /** After the data `c` has been decoded, `rest` is the text that remains: `c` ends at a
      block boundary, or it is everything. */
  ghost predicate Consumed(e: Encoding, text: bytes, c: bytes, rest: bytes) {
    (|c| % 3 == 0 && text == Encoded(e.Unpadded(), c) + rest) || (rest == [] && text == Encoded(e, c))
  }

  /** Decoding one more piece: whole blocks, or the last piece of the text. */
  lemma ConsumePiece(e: Encoding, text: bytes, c: bytes, piece: bytes, rest: bytes, data: bytes, final: bool)
    requires Consumed(e, text, c, piece + rest) && piece != []
    requires if final then rest == [] && piece == Encoded(e, data)
             else |piece| % 4 == 0 && piece == Encoded(e.Unpadded(), data)
    ensures Consumed(e, text, c + data, rest)
  {
    hide Encoded;
    assert |c| % 3 == 0 && text == Encoded(e.Unpadded(), c) + (piece + rest);
    assert e.Unpadded().Unpadded() == e.Unpadded();
    EncodedConcat(e, c, data);
    EncodedConcat(e.Unpadded(), c, data);
    EncodedLength(e.Unpadded(), data);
    if final {
      assert piece + rest == piece;
    } else {
      WholeBlocksOnly(|data|);
      assert Encoded(e.Unpadded(), c) + (piece + rest) == Encoded(e.Unpadded(), c) + piece + rest;
    }
  }

  lemma WholeBlocksOnly(n: nat)
    requires EncodedLen(n, false) % 4 == 0
    ensures n % 3 == 0
  {
    hide EncodedLen;
    EncodedLenOfGroups(n, false);
  }

  /** The data decoded so far is a prefix of what the whole text encodes. */
  lemma PrefixOfData(e: Encoding, d: bytes, c: bytes, rest: bytes)
    requires |c| % 3 == 0 && Encoded(e, d) == Encoded(e.Unpadded(), c) + rest
    ensures c <= d && rest == Encoded(e, d[|c|..])
  {
    hide Encoded;
    EncodedLength(e.Unpadded(), c);
    PrefixIsShorter(e, d, c, rest);
    assert d == d[..|c|] + d[|c|..];
    EncodedConcat(e, d[..|c|], d[|c|..]);
    EncodedLength(e.Unpadded(), d[..|c|]);
    var u := Encoded(e.Unpadded(), d[..|c|]);
    assert Encoded(e, d)[..|u|] == u && Encoded(e, d)[|u|..] == Encoded(e, d[|c|..]);
    EncodedInjective(e.Unpadded(), c, d[..|c|]);
  }

  lemma PrefixIsShorter(e: Encoding, d: bytes, c: bytes, rest: bytes)
    requires |c| % 3 == 0 && Encoded(e, d) == Encoded(e.Unpadded(), c) + rest
    ensures |c| <= |d|
  {
    hide Encoded, EncodedLen, PadCount;
    EncodedLength(e, d);
    EncodedLength(e.Unpadded(), c);
    EncodedDecodes(e.Unpadded(), c);
    if |c| > |d| {
      RoundedLength(|c|, |d|, e.padded);
      assert Encoded(e, d) == Encoded(e.Unpadded(), c);
      EndsInPad(e, d);
    }
  }

  lemma EndsInPad(e: Encoding, d: bytes)
    requires e.padded && PadCount(|d|) > 0
    ensures var s := Encoded(e, d); s != [] && !IsChar(e.alphabet, s[|s| - 1])
  {
    hide Encoded;
    EncodedPadding(e, d);
    assert !IsChar(e.alphabet, PAD);
  }

  lemma RoundedLength(c: nat, n: nat, padded: bool)
    requires c % 3 == 0 && c > n && EncodedLen(c, false) <= EncodedLen(n, padded)
    ensures padded && EncodedLen(c, false) == EncodedLen(n, padded) && PadCount(n) > 0
  {
    hide EncodedLen;
    EncodedLenOfGroups(c, false);
    EncodedLenOfGroups(n, padded);
  }

  /** The next piece of an encoding is itself an encoding: of whole blocks, or of the
      data that is left. */
  lemma NextPiece(e: Encoding, d: bytes, c: bytes, piece: bytes, rest: bytes)
    requires |c| % 3 == 0 && Encoded(e, d) == Encoded(e.Unpadded(), c) + (piece + rest)
    requires rest == [] || |piece| % 4 == 0
    ensures c <= d
    ensures rest == [] ==> piece == Encoded(e, d[|c|..])
    ensures rest != [] ==>
              var n := |piece| / 4 * 3;
              |c| + n < |d| && piece == Encoded(e.Unpadded(), d[|c|..|c| + n])
  {
    hide Encoded;
    PrefixOfData(e, d, c, piece + rest);
    if rest == [] {
      assert piece + rest == piece;
    } else {
      FirstBlocks(e, d[|c|..], piece, rest);
      assert d[|c|..][..|piece| / 4 * 3] == d[|c|..|c| + |piece| / 4 * 3];
    }
  }

  lemma FirstBlocks(e: Encoding, d: bytes, piece: bytes, rest: bytes)
    requires Encoded(e, d) == piece + rest && rest != [] && |piece| % 4 == 0
    ensures var n := |piece| / 4 * 3; n < |d| && piece == Encoded(e.Unpadded(), d[..n])
  {
    hide Encoded;
    EncodedLength(e, d);
    MoreDataFollows(|piece|, |d|, e.padded);
    var n := |piece| / 4 * 3;
    assert d == d[..n] + d[n..];
    EncodedConcat(e, d[..n], d[n..]);
    EncodedLength(e.Unpadded(), d[..n]);
    assert piece == (piece + rest)[..|piece|];
  }

  lemma MoreDataFollows(p: nat, n: nat, padded: bool)
    requires p % 4 == 0 && p < EncodedLen(n, padded)
    ensures p / 4 * 3 < n && EncodedLen(p / 4 * 3, false) == p
  {
    hide EncodedLen;
    EncodedLenOfGroups(n, padded);
    EncodedLenOfGroups(p / 4 * 3, false);
  }

  /** At least `n` bytes of data can be read from the text, whatever comes behind them. */
  ghost predicate Readable(e: Encoding, text: bytes, n: int) {
    exists c: bytes, rest: bytes :: Consumed(e, text, c, rest) && n <= |c|
  }

  /** The next piece of a text decodes if the data reaches into its last block. */
  lemma PieceOfReadable(e: Encoding, c: bytes, piece: bytes, rest: bytes, d: bytes, more: bytes)
    requires |c| % 3 == |d| % 3 == 0 && piece != [] && (|piece| % 4 == 0 || rest == [])
    requires Encoded(e.Unpadded(), c) + (piece + rest) == Encoded(e.Unpadded(), d) + more
    requires |d| >= |c| + 3 * ((|piece| + 3) / 4) - 2
    ensures Decoded(e.Unpadded(), piece).Some? && Decoded(e, piece).Some?
  {
    hide Encoded, Decoded, EncodedLen;
    var u, k := e.Unpadded(), (|piece| + 3) / 4;
    WholeLengths(u, c);
    WholeLengths(u, d);
    EnoughForPiece(|piece|, |rest|, |c|, |d|, |more|);
    var i, j := |c|, |c| + 3 * k;
    var b := d[i..j];
    RemainderUnique(3 * k, 3, k, 0);
    CutTwice(d, i, j);
    PieceOfWhole(u, c, piece, rest, d[..i], b, d[j..], more);
    EncodedConcat(e, b, []);
    EncodedConcat(u, b, []);
    DecodesExactlyEncodings(u, piece, b);
    DecodesExactlyEncodings(e, piece, b);
  }

  lemma EnoughForPiece(p: nat, r: nat, m: nat, n: nat, x: nat)
    requires m % 3 == n % 3 == 0 && p > 0 && (p % 4 == 0 || r == 0)
    requires m / 3 * 4 + p + r == n / 3 * 4 + x && n >= m + 3 * ((p + 3) / 4) - 2
    ensures p == 4 * ((p + 3) / 4) && m + 3 * ((p + 3) / 4) <= n
  {
    assert n / 3 >= m / 3 + (p + 3) / 4;
  }

  lemma PieceOfWhole(
    u: Encoding, c: bytes, piece: bytes, rest: bytes, a: bytes, b: bytes, z: bytes, more: bytes)
    requires |c| % 3 == |b| % 3 == 0 && |a| == |c| && |piece| == |b| / 3 * 4
    requires Encoded(u, c) + (piece + rest) == Encoded(u, a + (b + z)) + more
    ensures piece == Encoded(u, b)
  {
    hide Encoded;
    WholeLengths(u, c);
    WholeLengths(u, a);
    WholeLengths(u, b);
    ThreeParts(u, a, b, z, more);
    PieceBetween(Encoded(u, c), piece, rest, Encoded(u, a), Encoded(u, b), Encoded(u, z) + more);
  }

  lemma CutTwice(d: bytes, i: nat, j: nat)
    requires i <= j <= |d|
    ensures d == d[..i] + (d[i..j] + d[j..])
  {
  }

  lemma ThreeParts(u: Encoding, a: bytes, b: bytes, z: bytes, more: bytes)
    requires |a| % 3 == |b| % 3 == 0
    ensures Encoded(u, a + (b + z)) + more == Encoded(u, a) + (Encoded(u, b) + (Encoded(u, z) + more))
  {
    hide Encoded;
    EncodedConcat(u, a, b + z);
    EncodedConcat(u, b, z);
    Regrouped(Encoded(u, a), Encoded(u, b), Encoded(u, z), more);
  }

  lemma Regrouped(a: bytes, b: bytes, c: bytes, d: bytes)
    ensures a + (b + c) + d == a + (b + (c + d))
  {
  }

  lemma WholeLengths(e: Encoding, d: bytes)
    requires |d| % 3 == 0
    ensures |Encoded(e, d)| == |d| / 3 * 4
  {
    hide Encoded, EncodedLen;
    EncodedLength(e, d);
    EncodedLenOfGroups(|d|, e.padded);
  }

  lemma PieceBetween(a: bytes, b: bytes, c: bytes, a': bytes, b': bytes, c': bytes)
    requires |a| == |a'| && |b| == |b'|
    ensures a + (b + c) == a' + (b' + c') ==> b == b'
  {
    if a + (b + c) == a' + (b' + c') {
      assert b == (a + (b + c))[|a|..|a| + |b|] == (a' + (b' + c'))[|a|..|a| + |b|] == b';
    }
  }

  /** The prediction is exact on encodings. */
  lemma PredictionIsExact(e: Encoding, d: bytes)
    requires d != []
    ensures PredictedOfText(e, Encoded(e, d)) == Ok(|d|)
  {
    hide Encoded, Decoded, EncodeBlock;
    var text := Encoded(e, d);
    EncodedLength(e, d);
    LastBlockOfEncoded(e, d);
    var start := LastStart(|text|, 4);
    assert |text| - LastBlockLen(|text|) == start;
    var last := d[LastStart(|d|, 3)..];
    assert text[start..] == Encoded(e, last) by {
      BlockIsEncoded(e, last);
    }
    DecodesExactlyEncodings(e, text[start..], last);
  }

  lemma BlockIsEncoded(e: Encoding, d: bytes)
    requires 1 <= |d| <= 3
    ensures Encoded(e, d) == EncodeBlock(e, d)
  {
    hide EncodeBlock;
  }

  lemma {:induction false} OnlyBlankTextIsEmpty(remaining: bytes, lineWidth: Option<nat>)
    requires NoBlankLines(remaining, lineWidth)
    ensures Text(remaining, lineWidth) == Some([]) <==> remaining == []
  {
  }

  // ----- the decoder -----

  /** Whether a decoder can be created: the lines are well formed and the last block decodes. */
  ghost predicate Accepted(e: Encoding, input: bytes, lineWidth: Option<nat>) {
    input != [] && Predicted(e, input, lineWidth).Ok?
  }

  /** The prediction for a text that a decoder has accepted. */
  ghost predicate Predicts(e: Encoding, text: bytes, n: nat) {
    if text == [] then n == 0 else PredictedOfText(e, text) == Ok(n)
  }

  /** Why a decoder is refused: a line does not end properly or the last block does not decode, or
      there are no characters at all. */
  lemma WhyRefused(e: Encoding, input: bytes, lineWidth: Option<nat>)
    requires input != [] && (lineWidth.Some? ==> lineWidth.value >= MIN_LINE_WIDTH)
    ensures var text := Text(input, lineWidth);
            (Predicted(e, input, lineWidth) == Err(InvalidEncoding) <==>
             text.None? ||
             (text.value != [] && Decoded(e, text.value[LastStart(|text.value|, 4)..]).None?)) &&
            (Predicted(e, input, lineWidth) == Err(InvalidLength) <==> lineWidth.Some? && text == Some([]))
  {
    hide Decoded;
    var text := Text(input, lineWidth);
    NextLineParts(input, lineWidth);
    if text.Some? {
      LastBlockStarts(|text.value|);
    }
  }

  lemma LastBlockStarts(n: nat)
    ensures n > 0 ==> LastBlockLen(n) <= n && LastStart(n, 4) == n - LastBlockLen(n)
  {
    if n > 0 {
      RemainderUnique(n - 1, 4, (n - LastBlockLen(n)) / 4, LastBlockLen(n) - 1);
    }
  }

  /** The prediction agrees with the data of every text that has any. */
  lemma PredictionOfDecoded(e: Encoding, input: bytes, lineWidth: Option<nat>)
    requires Predicted(e, input, lineWidth).Ok?
    ensures Text(input, lineWidth).Some?
    ensures Predicts(e, Text(input, lineWidth).value, Predicted(e, input, lineWidth).value)
    ensures var d := Decoded(e, Text(input, lineWidth).value);
            d.Some? ==> Predicted(e, input, lineWidth) == Ok(|d.value|)
  {
    hide Decoded, Encoded;
    var text := Text(input, lineWidth).value;
    if Decoded(e, text).Some? {
      var d := Decoded(e, text).value;
      DecodesExactlyEncodings(e, text, d);
      EncodedLength(e, d);
      if d != [] {
        PredictionIsExact(e, d);
      }
    }
  }

  /** Every non-empty encoding is accepted, however its lines are broken. */
  lemma EncodingsAreAccepted(e: Encoding, input: bytes, lineWidth: Option<nat>, d: bytes)
    requires d != [] && Text(input, lineWidth) == Some(Encoded(e, d))
    ensures Accepted(e, input, lineWidth) && Predicted(e, input, lineWidth) == Ok(|d|)
    ensures Decoded(e, Encoded(e, d)) == Some(d)
  {
    hide Decoded, Encoded;
    DecodesExactlyEncodings(e, Encoded(e, d), d);
    EncodedLength(e, d);
    PredictionIsExact(e, d);
    EmptyText(lineWidth);
  }

  /** Decode buffer for data that has been decoded but not read. */
  class BlockBuffer {
    var decoded: bytes
    var length: nat
    var position: nat

    ghost predicate Valid()
      reads this
    {
      |decoded| == 3 && position <= length <= 3
    }

    ghost function Pending(): bytes
      requires Valid()
      reads this
    {
      decoded[position..length]
    }

    constructor ()
      ensures Valid() && Pending() == []
    {
      decoded, length, position := [0, 0, 0], 0, 0;
    }

    method Fill(input: bytes) returns (r: Result<(), Error>)
      requires Valid()
      modifies this
      ensures Valid()
      ensures if |input| > 3 then r == Err(InvalidLength) && Pending() == old(Pending())
              else r == Ok(()) && Pending() == input
    {
      if |input| > 3 {
        return Err(InvalidLength);
      }
      position, length := 0, |input|;
      decoded := input + decoded[|input|..];
      r := Ok(());
    }

    /** As many bytes as possible, up to `nbytes`. */
    method Take(nbytes: nat) returns (taken: bytes)
      requires Valid()
      modifies this`position
      ensures Valid() && |taken| == Min(nbytes, |old(Pending())|)
      ensures old(Pending()) == taken + Pending()
    {
      var n := Min(nbytes, length - position);
      taken := decoded[position..position + n];
      position := position + n;
    }

    function IsEmpty(): bool
      reads this
    {
      position == length
    }
  }

  class Decoder {
    const e: Encoding
    var line: bytes
    const lineReader: LineReader
    var remainingLen: nat
    const blockBuffer: BlockBuffer
    /** The Base64 characters of all lines. */
    ghost const text: bytes
    /** No line of the input is blank. */
    ghost const clean: bool
    /** All data read so far. */
    ghost var delivered: bytes

    ghost function Repr(): set<object> {
      {this, lineReader, blockBuffer}
    }

    /** The text that has not been decoded. */
    ghost function Rest(): Option<bytes>
      reads this, lineReader
    {
      Prepend(line, Text(lineReader.remaining, lineReader.lineWidth))
    }

    ghost predicate LinesAhead()
      reads this, lineReader
    {
      lineReader.Valid() && Rest().Some? &&
      (clean ==> NoBlankLines(lineReader.remaining, lineReader.lineWidth))
    }

    ghost predicate Consistent()
      reads Repr()
    {
      LinesAhead() && blockBuffer.Valid() &&
      Consumed(e, text, delivered + blockBuffer.Pending(), Rest().value)
    }

    /** The input is an encoding, and no line is blank. */
    ghost predicate WellFormed() {
      clean && Decoded(e, text).Some?
    }

    /** What remains to be read is what was predicted and has not been delivered. */
    ghost predicate Valid()
      reads Repr()
    {
      Consistent() && Predicts(e, text, |delivered| + remainingLen) &&
      (Decoded(e, text).Some? ==> |delivered| + remainingLen == |Decoded(e, text).value|)
    }

    /** Lines follow as long as there is input: always in wrapped text. */
    ghost predicate LinesFollow()
    {
      clean || lineReader.lineWidth.Some?
    }

    predicate IsFinished()
      reads this, lineReader, blockBuffer
    {
      line == [] && lineReader.remaining == [] && blockBuffer.IsEmpty()
    }

    ghost function Work(): nat
      reads this, lineReader, blockBuffer
      requires blockBuffer.Valid()
    {
      |line| + |lineReader.remaining| + |blockBuffer.Pending()|
    }

    constructor (e: Encoding, lineReader: LineReader, remainingLen: nat)
      requires lineReader.Valid()
      requires var t := Text(lineReader.remaining, lineReader.lineWidth);
               t.Some? && Predicts(e, t.value, remainingLen) &&
               (Decoded(e, t.value).Some? ==> remainingLen == |Decoded(e, t.value).value|)
      ensures Valid() && delivered == [] && this.remainingLen == remainingLen
      ensures this.e == e && this.lineReader == lineReader && fresh(blockBuffer)
      ensures text == Text(lineReader.remaining, lineReader.lineWidth).value
      ensures clean == NoBlankLines(lineReader.remaining, lineReader.lineWidth)
    {
      hide Decoded, Encoded, Predicts, NoBlankLines;
      this.e, this.lineReader, this.remainingLen := e, lineReader, remainingLen;
      line, delivered := [], [];
      blockBuffer := new BlockBuffer();
      text := Text(lineReader.remaining, lineReader.lineWidth).value;
      clean := NoBlankLines(lineReader.remaining, lineReader.lineWidth);
      new;
      EncodedLength(e.Unpadded(), []);
      assert delivered + blockBuffer.Pending() == [];
      assert Encoded(e.Unpadded(), []) == [] && [] + text == text;
    }

    /** A decoder for contiguous data. */
    static method New(e: Encoding, input: bytes) returns (r: Result<Decoder, Error>)
      ensures r.Ok? <==> Accepted(e, input, None)
      ensures input == [] ==> r == Err(InvalidLength)
      ensures input != [] && r.Err? ==> Predicted(e, input, None) == Err(r.error)
      ensures r.Ok? ==> r.value.IsNew(e, input, None) && fresh(r.value.Repr())
    {
      r := FromReader(e, input, None);
    }

    /** A decoder for data wrapped at `lineWidth`. */
    static method NewWrapped(e: Encoding, input: bytes, lineWidth: nat) returns (r: Result<Decoder, Error>)
      ensures lineWidth < 4 || input == [] ==> r == Err(InvalidLength)
      ensures lineWidth >= 4 && input != [] && r.Err? ==> Predicted(e, input, Some(lineWidth)) == Err(r.error)
      ensures r.Ok? <==> lineWidth >= 4 && Accepted(e, input, Some(lineWidth))
      ensures r.Ok? ==> r.value.IsNew(e, input, Some(lineWidth)) && fresh(r.value.Repr())
    {
      if lineWidth < MIN_LINE_WIDTH {
        return Err(InvalidLength);
      }
      r := FromReader(e, input, Some(lineWidth));
    }

    /** The state of a decoder that has just been created: in particular, the predicted
        length of an encoding is the length of its data. */
    ghost predicate IsNew(e: Encoding, input: bytes, lineWidth: Option<nat>)
      reads Repr()
    {
      Valid() && delivered == [] && this.e == e && Text(input, lineWidth) == Some(text) &&
      clean == NoBlankLines(input, lineWidth) && lineReader.lineWidth == lineWidth &&
      Predicted(e, input, lineWidth) == Ok(remainingLen)
    }

    static method FromReader(e: Encoding, input: bytes, lineWidth: Option<nat>) returns (r: Result<Decoder, Error>)
      requires lineWidth.Some? ==> lineWidth.value >= MIN_LINE_WIDTH
      ensures r.Ok? <==> Accepted(e, input, lineWidth)
      ensures input == [] ==> r == Err(InvalidLength)
      ensures input != [] && r.Err? ==> Predicted(e, input, lineWidth) == Err(r.error)
      ensures r.Ok? ==> r.value.IsNew(e, input, lineWidth) && fresh(r.value.Repr())
    {
      hide Decoded, Predicted, Predicts, Text, NextLine;
      if input == [] {
        return Err(InvalidLength);
      }
      var lineReader := new LineReader(input, lineWidth);
      var len := lineReader.DecodedLen(e);
      if len.Err? {
        return Err(len.error);
      }
      PredictionOfDecoded(e, input, lineWidth);
      var decoder := new Decoder(e, lineReader, len.value);
      r := Ok(decoder);
    }

    /** Everything has been read: the text encodes what was delivered. */
    lemma FinishedMeansDecoded()
      requires Consistent() && IsFinished()
      ensures Decoded(e, text) == Some(delivered)
    {
      hide Decoded, Encoded;
      assert delivered + blockBuffer.Pending() == delivered;
      EncodedConcat(e, if |delivered| % 3 == 0 then delivered else [], []);
      DecodesExactlyEncodings(e, text, delivered);
    }

    /** Once as much has been delivered as was predicted, the text decodes: the prediction is never
        too small. */
    lemma NothingRemainsMeansDecoded()
      requires Valid() && remainingLen == 0
      ensures Decoded(e, text).Some?
    {
      hide Decoded, Encoded;
      var c, rest := delivered + blockBuffer.Pending(), Rest().value;
      if rest != [] || text != Encoded(e, c) {
        EncodedLength(e.Unpadded(), c);
        if text != [] {
          PredictionCoversText(e, text, |delivered|);
        }
        EncodedLenOfGroups(|c|, false);
        assert rest == [] && text == Encoded(e.Unpadded(), c);
        EncodedConcat(e, c, []);
      }
      DecodesExactlyEncodings(e, text, c);
    }

    method TakeLine(nbytes: nat) returns (taken: bytes)
      modifies this`line
      ensures old(line) == taken + line && |taken| == Min(nbytes, |old(line)|)
    {
      var n := Min(nbytes, |line|);
      taken, line := line[..n], line[n..];
    }

    /** Move on to the next line. */
    method AdvanceLine() returns (r: Result<(), Error>)
      requires line == [] && LinesAhead()
      modifies this`line, lineReader
      ensures LinesAhead() && Rest() == old(Rest())
      ensures r.Ok? ==>
                |line| + |lineReader.remaining| <= |old(lineReader.remaining)| &&
                |lineReader.remaining| < |old(lineReader.remaining)| &&
                (lineReader.remaining != [] ==> |line| >= 4)
      ensures LinesFollow() && old(lineReader.remaining) != [] ==> r.Ok?
      ensures r.Err? ==> r.error == InvalidLength
    {
      assert forall t: bytes :: [] + t == t;
      assert Text([], lineReader.lineWidth) == Some([]);
      var step := lineReader.Next();
      match step {
        case Line(next, _) =>
          line := next;
          r := Ok(());
        case Malformed => r := Err(InvalidEncoding);
        case End => r := Err(InvalidLength);
      }
    }

    /** `src` is the next piece of the text, and ends at a block boundary unless it is the last. */
    ghost predicate AtPiece(src: bytes)
      reads Repr()
    {
      LinesAhead() && blockBuffer.Valid() && blockBuffer.Pending() == [] &&
      Consumed(e, text, delivered, src + Rest().value) &&
      (|src| % 4 == 0 || (line == [] && lineReader.remaining == []))
    }

    ghost function PieceEncoding(): Encoding
      reads Repr()
    {
      if IsFinished() then e else e.Unpadded()
    }

    lemma DecodedPieceIsConsumed(src: bytes, data: bytes)
      requires AtPiece(src) && Decoded(PieceEncoding(), src) == Some(data)
      ensures Consumed(e, text, delivered + data, Rest().value)
    {
      hide Decoded, Encoded;
      var rest := Rest().value;
      DecodesExactlyEncodings(PieceEncoding(), src, data);
      if src == [] {
        EncodedLength(PieceEncoding(), data);
        assert delivered + data == delivered && src + rest == rest;
      } else {
        EmptyText(lineReader.lineWidth);
        ConsumePiece(e, text, delivered, src, rest, data, IsFinished());
      }
    }

    lemma WellFormedPieceDecodes(src: bytes)
      requires AtPiece(src) && WellFormed()
      ensures Decoded(PieceEncoding(), src).Some?
    {
      hide Decoded, Encoded;
      var rest, d := Rest().value, Decoded(e, text).value;
      DecodesExactlyEncodings(e, text, d);
      if src == [] {
        EncodedLength(PieceEncoding(), []);
        DecodesExactlyEncodings(PieceEncoding(), src, []);
      } else {
        EmptyText(lineReader.lineWidth);
        OnlyBlankTextIsEmpty(lineReader.remaining, lineReader.lineWidth);
        NextPiece(e, d, delivered, src, rest);
        var n := |delivered|;
        if rest == [] {
          DecodesExactlyEncodings(e, src, d[n..]);
        } else {
          DecodesExactlyEncodings(e.Unpadded(), src, d[n..n + |src| / 4 * 3]);
        }
      }
    }

    /** A piece that does not decode cannot be read past its last block. */
    lemma PieceIsUnreadable(src: bytes)
      requires AtPiece(src) && clean && src != [] && Decoded(PieceEncoding(), src).None?
      ensures !Readable(e, text, |delivered| + 3 * ((|src| + 3) / 4) - 2)
    {
      hide Decoded, Encoded;
      var n := |delivered| + 3 * ((|src| + 3) / 4) - 2;
      EmptyText(lineReader.lineWidth);
      if Readable(e, text, n) {
        var c: bytes, more: bytes :| Consumed(e, text, c, more) && n <= |c|;
        if more == [] && text == Encoded(e, c) {
          DecodesExactlyEncodings(e, text, c);
          WellFormedPieceDecodes(src);
        } else {
          PieceOfReadable(e, delivered, src, Rest().value, c, more);
        }
      }
    }

    /** Behind the end there is nothing to read. */
    lemma EndIsUnreadable()
      requires Consistent() && IsFinished()
      ensures !Readable(e, text, |delivered| + 1)
    {
      hide Decoded, Encoded;
      FinishedMeansDecoded();
      DecodesExactlyEncodings(e, text, delivered);
      if Readable(e, text, |delivered| + 1) {
        var c: bytes, more: bytes :| Consumed(e, text, c, more) && |delivered| + 1 <= |c|;
        if more == [] && text == Encoded(e, c) {
          DecodesExactlyEncodings(e, text, c);
        } else {
          PrefixOfData(e, delivered, c, more);
        }
      }
    }

    /** What has been delivered was readable, and no more than predicted. */
    lemma DeliveredIsReadable(n: nat)
      requires Consistent() && Predicts(e, text, n)
      requires Decoded(e, text).Some? ==> n == |Decoded(e, text).value|
      ensures Readable(e, text, |delivered|) && |delivered| <= n
    {
      hide Decoded, Encoded;
      var c, rest := delivered + blockBuffer.Pending(), Rest().value;
      assert Consumed(e, text, c, rest) && |delivered| <= |c|;
      if Decoded(e, text).Some? {
        DeliveredIsPrefix();
      } else if |delivered| > n {
        DecodesExactlyEncodings(e, text, c);
        EncodedLength(e.Unpadded(), c);
        if text != [] {
          PredictionCoversText(e, text, n);
        }
        EncodedLenOfGroups(|c|, false);
        assert rest == [] && text == Encoded(e.Unpadded(), c);
        EncodedConcat(e, c, []);
      }
    }

    /** Decode `src`: padding is accepted only at the very end. */
    method PerformDecode(src: bytes, dst: array<u8>, lo: nat, hi: nat) returns (r: Result<nat, Error>)
      requires lo + Codec.DecodedLen(|src|) <= hi <= dst.Length
      requires AtPiece(src)
      modifies dst
      ensures dst[..lo] == old(dst[..lo]) && dst[hi..] == old(dst[hi..])
      ensures r.Ok? ==> r.value <= Codec.DecodedLen(|src|) &&
                        Consumed(e, text, delivered + dst[lo..lo + r.value], Rest().value)
      ensures r.Err? ==> r.error == InvalidEncoding
      ensures r.Err? && clean ==> !Readable(e, text, |delivered| + 3 * ((|src| + 3) / 4) - 2)
      ensures WellFormed() ==> r.Ok?
    {
      hide Decoded, Encoded, Readable;
      var encoding := if IsFinished() then e else e.Unpadded();
      DecodedLenMonotone(UnpaddedLen(encoding, src), |src|);
      if WellFormed() {
        WellFormedPieceDecodes(src);
      }
      r := Codec.Decode(encoding, src, dst, lo, hi);
      assert r.Err? ==> r == if r.error == InvalidLength then Err(InvalidLength) else Err(InvalidEncoding);
      if r.Ok? {
        DecodedPieceIsConsumed(src, dst[lo..lo + r.value]);
      } else {
        NothingDecodes(encoding);
        if clean {
          PieceIsUnreadable(src);
        }
      }
    }

    /** Decode a stride of whole blocks into `out[pos..hi]`. */
    method DecodeStride(out: array<u8>, pos: nat, hi: nat) returns (r: Result<nat, Error>)
      requires Consistent() && pos <= hi <= out.Length
      requires blockBuffer.Pending() == [] || pos == hi
      modifies this`line, this`delivered, out
      ensures out[..pos] == old(out[..pos]) && out[hi..] == old(out[hi..])
      ensures r.Ok? ==>
                Consistent() && pos + r.value <= hi && delivered == old(delivered) + out[pos..pos + r.value] &&
                Work() + r.value <= old(Work())
      ensures r.Err? ==> r.error == InvalidEncoding
      ensures r.Err? && clean ==> !Readable(e, text, |old(delivered)| + (hi - pos))
      ensures WellFormed() ==> r.Ok?
    {
      hide Decoded, Consumed, Text, NoBlankLines, Readable;
      var blocks := Min(|line| / 4, (hi - pos) / 3);
      ghost var before := Text(lineReader.remaining, lineReader.lineWidth);
      var aligned := TakeLine(4 * blocks);
      PrependAssociative(aligned, line, before);
      assert delivered + blockBuffer.Pending() == delivered || blocks == 0;
      r := Ok(0);
      if blocks == 0 {
        assert aligned + line == line;
      } else {
        FewerAreReadable(e, text, |delivered| + 3 * blocks);
        r := DecodeAligned(aligned, blocks, out, pos, hi);
      }
    }

    method DecodeAligned(aligned: bytes, blocks: nat, out: array<u8>, pos: nat, hi: nat) returns (r: Result<nat, Error>)
      requires AtPiece(aligned) && |aligned| == 4 * blocks && pos + 3 * blocks <= hi <= out.Length
      modifies this`delivered, out
      ensures out[..pos] == old(out[..pos]) && out[hi..] == old(out[hi..])
      ensures r.Ok? ==>
                Consistent() && r.value <= 3 * blocks && delivered == old(delivered) + out[pos..pos + r.value]
      ensures r.Err? ==> r.error == InvalidEncoding
      ensures r.Err? && clean ==> !Readable(e, text, |old(delivered)| + 3 * blocks)
      ensures WellFormed() ==> r.Ok?
    {
      hide Decoded, Consumed, Text, NoBlankLines, Readable;
      FewerAreReadable(e, text, |delivered| + 3 * blocks - 2);
      r := PerformDecode(aligned, out, pos, pos + 3 * blocks);
      assert out[hi..] == out[pos + 3 * blocks..][hi - pos - 3 * blocks..];
      if r.Ok? {
        delivered := delivered + out[pos..pos + r.value];
        assert delivered + blockBuffer.Pending() == delivered;
      }
    }

    /** Take the next block, which may be split over two lines; it is short only at the very end. */
    method TakeBlock() returns (r: Result<bytes, Error>)
      requires LinesAhead()
      modifies this`line, lineReader
      ensures LinesAhead()
      ensures r.Ok? ==>
                var block := r.value;
                old(Rest()) == Prepend(block, Rest()) && |block| <= 4 &&
                (|block| == 4 || (line == [] && lineReader.remaining == [])) &&
                |line| + |lineReader.remaining| + |block| <= old(|line| + |lineReader.remaining|) &&
                (block == [] ==> |lineReader.remaining| < old(|lineReader.remaining|) || old(line) == [])
      ensures LinesFollow() ==> r.Ok?
    {
      ghost var after := Text(lineReader.remaining, lineReader.lineWidth);
      if |line| < 4 && lineReader.remaining != [] {
        var lineEnd := TakeLine(4);
        PrependAssociative(lineEnd, [], after);
        assert lineEnd + [] == lineEnd;
        var advanced := AdvanceLine();
        if advanced.Err? {
          return Err(advanced.error);
        }
        var lineBegin := TakeLine(4 - |lineEnd|);
        PrependAssociative(lineBegin, line, Text(lineReader.remaining, lineReader.lineWidth));
        PrependAssociative(lineEnd, lineBegin, Rest());
        r := Ok(lineEnd + lineBegin);
      } else {
        var block := TakeLine(4);
        PrependAssociative(block, line, after);
        r := Ok(block);
      }
    }

    /** Decode one block into the block buffer. */
    method FillBlockBuffer() returns (r: Result<(), Error>)
      requires Consistent() && blockBuffer.Pending() == [] && !IsFinished()
      modifies this`line, lineReader, blockBuffer
      ensures r.Ok? ==> Consistent() && Work() < old(Work())
      ensures LinesFollow() && r.Err? ==> r.error == InvalidEncoding
      ensures r.Err? && clean ==> !Readable(e, text, |delivered| + 1)
      ensures WellFormed() ==> r.Ok?
    {
      hide Decoded, Consumed;
      var buf := new u8[3];
      var block := TakeBlock();
      if block.Err? {
        return Err(block.error);
      }
      assert delivered + [] == delivered;
      var decoded := PerformDecode(block.value, buf, 0, 3);
      if decoded.Err? {
        return Err(decoded.error);
      }
      r := blockBuffer.Fill(buf[..decoded.value]);
    }

    /** What has been delivered is a prefix of the data. */
    lemma DeliveredIsPrefix()
      requires Consistent() && Decoded(e, text).Some?
      ensures delivered <= Decoded(e, text).value
    {
      hide Decoded, Encoded;
      var c, d := delivered + blockBuffer.Pending(), Decoded(e, text).value;
      DecodesExactlyEncodings(e, text, d);
      DecodesExactlyEncodings(e, text, c);
      if !(Rest().value == [] && text == Encoded(e, c)) {
        PrefixOfData(e, d, c, Rest().value);
      }
      assert delivered <= c;
    }

    /** On well-formed text, the decoder is finished exactly when nothing remains. */
    lemma FinishedMeansNothingRemains()
      requires Valid() && WellFormed()
      ensures delivered <= Decoded(e, text).value
      ensures IsFinished() <==> remainingLen == 0
      ensures remainingLen == |Decoded(e, text).value| - |delivered|
    {
      hide Decoded, Encoded;
      DeliveredIsPrefix();
      var d := Decoded(e, text).value;
      DecodesExactlyEncodings(e, text, d);
      if IsFinished() {
        FinishedMeansDecoded();
      } else if remainingLen == 0 {
        var c, rest := delivered + blockBuffer.Pending(), Rest().value;
        DecodesExactlyEncodings(e, text, c);
        if rest != [] {
          PrefixOfData(e, d, c, rest);
          EncodedLength(e, d[|c|..]);
        } else {
          OnlyBlankTextIsEmpty(lineReader.remaining, lineReader.lineWidth);
          EncodedConcat(e, if |c| % 3 == 0 then c else [], []);
        }
      }
    }

    /** Serve a read from the block buffer. */
    method DrainBlockBuffer(out: array<u8>, pos: nat, hi: nat) returns (n: nat)
      requires Consistent() && pos < hi <= out.Length
      modifies blockBuffer, this`delivered, out
      ensures out[..pos] == old(out[..pos]) && out[hi..] == old(out[hi..])
      ensures Consistent() && pos + n <= hi && delivered == old(delivered) + out[pos..pos + n]
      ensures Work() + n == old(Work())
      ensures blockBuffer.Pending() == [] || pos + n == hi
      ensures n == 0 ==> old(blockBuffer.Pending()) == []
    {
      hide Decoded, Consumed, Text, NoBlankLines, Readable;
      var taken := blockBuffer.Take(hi - pos);
      n := |taken|;
      CopyFromSlice(out, pos, taken);
      assert out[hi..] == out[pos + n..][hi - pos - n..];
      delivered := delivered + taken;
      assert delivered + blockBuffer.Pending() == old(delivered) + (taken + blockBuffer.Pending());
    }

    /** Fill the slice `out[lo..hi]` with decoded data. */
    method Decode(out: array<u8>, lo: nat, hi: nat) returns (r: Result<(), Error>)
      requires Valid() && lo <= hi <= out.Length
      modifies Repr(), out
      ensures r.Ok? ==>
                Valid() && delivered == old(delivered) + out[lo..hi] &&
                remainingLen == old(remainingLen) - (hi - lo)
      ensures WellFormed() ==> r == if hi - lo <= old(remainingLen) then Ok(()) else Err(InvalidLength)
      ensures LinesFollow() && Decoded(e, text).None? && r.Err? ==> r.error == InvalidEncoding
      ensures clean ==> (r.Ok? <==> Readable(e, text, |old(delivered)| + (hi - lo)))
      ensures out[..lo] == old(out[..lo]) && out[hi..] == old(out[hi..])
    {
      hide Decoded, Consumed, Text, NoBlankLines, Readable;
      if IsFinished() && lo < hi {
        FinishedMeansDecoded();
        EndIsUnreadable();
        FewerAreReadable(e, text, |delivered| + 1);
        return Err(InvalidLength);
      }
      var pos := lo;
      ghost var start := delivered;
      while pos < hi
        invariant Consistent() && lo <= pos <= hi && remainingLen == old(remainingLen)
        invariant delivered == start + out[lo..pos]
        invariant out[..lo] == old(out[..lo]) && out[hi..] == old(out[hi..])
        decreases if pos < hi then Work() + 1 else 0
      {
        ghost var before := out[..];
        var step := DecodeSome(out, pos, hi);
        AppendOutput(before, out[..], lo, pos, out[pos..if step.Ok? then step.value else pos]);
        if step.Err? {
          return Err(step.error);
        }
        assert start + before[lo..pos] + out[pos..step.value] == start + (before[lo..pos] + out[pos..step.value]);
        pos := step.value;
      }
      DeliveredIsReadable(|start| + remainingLen);
      if remainingLen < hi - lo {
        return Err(InvalidLength);
      }
      remainingLen := remainingLen - (hi - lo);
      r := Ok(());
    }

    /** One pass of the loop of `decode`; returns the new position. */
    method DecodeSome(out: array<u8>, pos: nat, hi: nat) returns (r: Result<nat, Error>)
      requires Consistent() && pos < hi <= out.Length
      modifies lineReader, blockBuffer, this`line, this`delivered, out
      ensures out[..pos] == old(out[..pos]) && out[hi..] == old(out[hi..])
      ensures r.Ok? ==>
                Consistent() && pos <= r.value <= hi && delivered == old(delivered) + out[pos..r.value] &&
                (r.value < hi ==> Work() < old(Work()))
      ensures WellFormed() && r.Err? ==>
                r.error == InvalidLength && |Decoded(e, text).value| < |old(delivered)| + (hi - pos)
      ensures LinesFollow() && Decoded(e, text).None? && r.Err? ==> r.error == InvalidEncoding
      ensures r.Err? && clean ==> !Readable(e, text, |old(delivered)| + (hi - pos))
    {
      hide Decoded, Consumed, Text, NoBlankLines, Readable;
      var at := pos;
      if !blockBuffer.IsEmpty() {
        var n := DrainBlockBuffer(out, pos, hi);
        at := at + n;
      }
      ghost var before := out[..];
      var ready := StartLine();
      if ready.Err? {
        return Err(ready.error);
      }
      r := StrideThenBlock(out, at, hi);
      AppendOutput(before, out[..], pos, at, out[at..if r.Ok? then r.value else at]);
    }

    /** Go on to the next line if this one is used up. */
    method StartLine() returns (r: Result<(), Error>)
      requires Consistent()
      modifies this`line, lineReader
      ensures r.Ok? ==> Consistent() && Work() <= old(Work())
      ensures LinesFollow() ==> r.Ok?
    {
      hide Decoded, Consumed, Text, NoBlankLines;
      r := Ok(());
      if line == [] && lineReader.remaining != [] {
        r := AdvanceLine();
      }
    }

    /** The rest of the pass: a stride into the output, then one block into the buffer. */
    method StrideThenBlock(out: array<u8>, pos: nat, hi: nat) returns (r: Result<nat, Error>)
      requires Consistent() && pos <= hi <= out.Length
      requires blockBuffer.Pending() == [] || pos == hi
      modifies lineReader, blockBuffer, this`line, this`delivered, out
      ensures out[..pos] == old(out[..pos]) && out[hi..] == old(out[hi..])
      ensures r.Ok? ==>
                Consistent() && pos <= r.value <= hi && delivered == old(delivered) + out[pos..r.value] &&
                (r.value < hi ==> Work() < old(Work()))
      ensures WellFormed() && r.Err? ==>
                r.error == InvalidLength && |Decoded(e, text).value| < |old(delivered)| + (hi - pos)
      ensures LinesFollow() && Decoded(e, text).None? && r.Err? ==> r.error == InvalidEncoding
      ensures r.Err? && clean ==> !Readable(e, text, |old(delivered)| + (hi - pos))
    {
      hide Decoded, Consumed, Text, NoBlankLines, Readable;
      r := DecodeStride(out, pos, hi);
      if r.Ok? {
        r := Ok(pos + r.value);
        if r.value < hi {
          if IsFinished() {
            FinishedMeansDecoded();
            EndIsUnreadable();
            FewerAreReadable(e, text, |delivered| + 1);
            return Err(InvalidLength);
          }
          FewerAreReadable(e, text, |delivered| + 1);
          var filled := FillBlockBuffer();
          if filled.Err? {
            return Err(filled.error);
          }
        }
      }
    }
  }

  lemma FewerAreReadable(e: Encoding, text: bytes, m: int)
    ensures forall n: int :: m <= n && Readable(e, text, n) ==> Readable(e, text, m)
  {
  }

  lemma NothingDecodes(e: Encoding)
    ensures Decoded(e, []).Some?
  {
    hide Decoded, Encoded;
    EncodedLength(e, []);
    NothingEncoded(e.padded);
    DecodesExactlyEncodings(e, [], []);
  }

  lemma DecodedLenMonotone(m: nat, n: nat)
    requires m <= n
    ensures Codec.DecodedLen(m) <= Codec.DecodedLen(n)
  {
  }

  /** Whole blocks with as much data as predicted take all of the text. */
  lemma PredictionCoversText(e: Encoding, text: bytes, n: nat)
    requires text != [] && PredictedOfText(e, text) == Ok(n)
    ensures forall m: nat :: m >= n && m % 3 == 0 ==> m / 3 * 4 >= |text|
  {
    hide Decoded, Encoded, Codec.DecodedLen, EncodedLen;
    var k := LastBlockLen(|text|);
    LastBlockStarts(|text|);
    var block := text[|text| - k..];
    var d := Decoded(e, block).value;
    DecodesExactlyEncodings(e, block, d);
    EncodedLength(e, d);
    assert d != [] by {
      EncodedLength(e, []);
      NothingEncoded(e.padded);
    }
    BlocksBefore(|text|);
    forall m: nat | m >= n && m % 3 == 0 ensures m / 3 * 4 >= |text| {
      EnoughBlocks(|text|, m);
    }
  }

  lemma NothingEncoded(padded: bool)
    ensures EncodedLen(0, padded) == 0
  {
  }

  /** The data of all blocks but the last. */
  lemma BlocksBefore(n: nat)
    requires n > 0
    ensures LastBlockLen(n) <= n && Codec.DecodedLen(n - LastBlockLen(n)) == 3 * ((n - 1) / 4)
  {
    LastBlockStarts(n);
    RemainderUnique(n - LastBlockLen(n), 4, (n - 1) / 4, 0);
  }

  lemma EnoughBlocks(n: nat, m: nat)
    requires n > 0 && m % 3 == 0 && m > 3 * ((n - 1) / 4)
    ensures m / 3 * 4 >= n
  {
    var q := (n - 1) / 4;
    assert m / 3 >= q + 1;
    assert n <= 4 * q + 4;
  }

  lemma EmptyText(lineWidth: Option<nat>)
    ensures Text([], lineWidth) == Some([])
  {
  }
}
