/** The buffered, line-wrapping Base64 encoder (base64ct/src/encoder.rs).

    However the input is split into calls, the encoder lays out the one-shot encoding of
    everything it has consumed.
  */
module StreamingEncoder {
  import opened Bits
  import opened Codec
  import opened Lines
  import opened Slices
  import opened Wrappers

  /** How the text is laid out. */
  datatype Layout = Contiguous | WrappedAt(width: nat, ending: LineEnding) {
    predicate Valid() {
      WrappedAt? ==> width >= MIN_LINE_WIDTH
    }

    function Of(text: bytes): bytes
      requires Valid()
    {
      match this
      case Contiguous => text
      case WrappedAt(width, ending) => Wrapped(text, width, ending.Bytes())
    }

    /** Whether the last block of `text` is laid out without a line break in or before it. */
    predicate LastBlockUnbroken(n: nat)
      requires Valid()
    {
      Contiguous? || n == 0 || Room(width, (n - 1) / 4 * 4) >= (n - 1) % 4 + 1
    }

    /** Whether `text` can be written into `capacity` bytes.  A line break is only written
        when at least one byte remains after the block that caused it. */
    predicate Fits(text: bytes, capacity: nat)
      requires Valid()
    {
      |Of(text)| < capacity || (|Of(text)| == capacity && LastBlockUnbroken(|text|))
    }
  }

  /** The text of the whole blocks of `d`. */
  function WholeBlocks(e: Encoding, d: bytes): bytes {
    Encoded(e, d[..|d| - |d| % 3])
  }

  lemma LayoutLength(layout: Layout, text: bytes)
    requires layout.Valid()
    ensures |layout.Of(text)| ==
            if layout.Contiguous? then |text| else WrappedLen(|text|, layout.width, |layout.ending.Bytes()|)
  {
    if layout.WrappedAt? {
      WrappedLength(text, layout.width, layout.ending.Bytes());
    }
  }

  lemma LongerTextIsLonger(layout: Layout, text: bytes, longer: bytes)
    requires layout.Valid() && |text| < |longer|
    ensures |layout.Of(text)| < |layout.Of(longer)|
  {
    LayoutLength(layout, text);
    LayoutLength(layout, longer);
    if layout.WrappedAt? {
      WrappedLenMonotone(|text|, |longer|, layout.width, |layout.ending.Bytes()|);
      var q, q', k := (|longer| - 1) / layout.width, (|text| - 1) / layout.width, |layout.ending.Bytes()|;
      if text != [] {
        DivMonotone(|text| - 1, |longer| - 1, layout.width);
        MulMonotone(q', q, k);
      }
    }
  }

  /** Text that does not fit still does not fit when more follows. */
  lemma FitsPrefix(layout: Layout, text: bytes, more: bytes, capacity: nat)
    requires layout.Valid() && layout.Fits(text + more, capacity)
    ensures layout.Fits(text, capacity)
  {
    hide Layout.Of;
    if more == [] {
      assert text + more == text;
    } else {
      LongerTextIsLonger(layout, text, text + more);
    }
  }

  lemma WholeBlocksFit(e: Encoding, layout: Layout, d: bytes, more: bytes, capacity: nat)
    requires layout.Valid() && layout.Fits(WholeBlocks(e, d + more), capacity)
    ensures layout.Fits(WholeBlocks(e, d), capacity)
  {
    hide Encoded, Layout.Of, Layout.Fits;
    var n, m := |d| - |d| % 3, |d + more| - |d + more| % 3;
    assert n % 3 == 0 && m % 3 == 0 && n <= m;
    assert (d + more)[..m] == d[..n] + (d + more)[n..m];
    EncodedConcat(e, d[..n], (d + more)[n..m]);
    FitsPrefix(layout, WholeBlocks(e, d), Encoded(e, (d + more)[n..m]), capacity);
  }

  /** Text that would fill the output exactly is refused when the line breaks before its last
      block. */
  lemma ExactFitIsRefused(text: bytes)
    requires |text| == 8
    ensures var layout := WrappedAt(4, LF);
            |layout.Of(text)| == 9 && !layout.Fits(text, 9) && layout.Fits(text, 10)
  {
    WrappedLength(text, 4, LF.Bytes());
  }

  /** Input after whole blocks and part of a block, which it does not exceed. */
  lemma WholeAndPart(d: bytes, head: bytes, n: nat)
    requires n == |d| % 3 && n <= |d| && n + |head| <= 3
    ensures |d[..|d| - n]| % 3 == 0 && d + head == d[..|d| - n] + (d[|d| - n..] + head)
    ensures n + |head| < 3 ==> |d + head| % 3 == n + |head|
  {
    RemainderUnique(|d| - n, 3, |d| / 3, 0);
    if n + |head| < 3 {
      RemainderUnique(|d + head|, 3, |d| / 3, n + |head|);
    }
  }

  /** Whether laying out `x` after `text` needs a line break. */
  predicate Breaks(layout: Layout, text: bytes, x: bytes)
    requires layout.Valid()
  {
    layout.WrappedAt? && |x| > Room(layout.width, |text|)
  }

  /** A stride that fits on the line, or a single block. */
  ghost predicate OneStep(layout: Layout, text: bytes, x: bytes)
    requires layout.Valid()
  {
    |text| % 4 == 0 && x != [] && (|x| <= 4 || (|x| % 4 == 0 && !Breaks(layout, text, x)))
  }

  /** What one step of the encoder adds to the output. */
  function StepOutput(layout: Layout, text: bytes, x: bytes): bytes
    requires layout.Valid()
  {
    if !Breaks(layout, text, x) then x
    else
      var r := Room(layout.width, |text|);
      x[..r] + layout.ending.Bytes() + x[r..]
  }

  lemma LayoutStep(layout: Layout, text: bytes, x: bytes)
    requires layout.Valid() && OneStep(layout, text, x)
    ensures layout.Of(text + x) == layout.Of(text) + StepOutput(layout, text, x)
    ensures layout.WrappedAt? ==>
              var r := Room(layout.width, |text|);
              Room(layout.width, |text + x|) == if |x| <= r then r - |x| else layout.width - (|x| - r)
  {
    if layout.WrappedAt? {
      WrapAppend(text, x, layout.width, layout.ending.Bytes());
      var r := Room(layout.width, |text|);
      if |x| > r {
        var s, k := Wrapped(text, layout.width, layout.ending.Bytes()), layout.ending.Bytes();
        assert s + x[..r] + k + x[r..] == s + (x[..r] + k + x[r..]);
      }
    }
  }

  lemma BlockIsOneStep(e: Encoding, layout: Layout, d: bytes, block: bytes)
    requires layout.Valid() && |d| % 3 == 0 && 1 <= |block| <= 3
    ensures OneStep(layout, Encoded(e, d), Encoded(e, block))
  {
    hide Encoded, EncodedLen, Breaks;
    EncodedLength(e, d);
    EncodedLength(e, block);
    EncodedLenOfGroups(|d|, e.padded);
    EncodedLenOfGroups(|block|, e.padded);
  }

  /** A stride capped at the end of the output and of the line can always be written. */
  lemma StrideFits(e: Encoding, layout: Layout, d: bytes, aligned: bytes, capacity: nat)
    requires layout.Valid() && |d| % 3 == 0 && |aligned| % 3 == 0 && aligned != []
    requires |layout.Of(Encoded(e, d))| + |aligned| / 3 * 4 <= capacity
    requires layout.WrappedAt? ==> |aligned| / 3 * 4 <= Room(layout.width, |Encoded(e, d)|)
    ensures OneStep(layout, Encoded(e, d), Encoded(e, aligned))
    ensures layout.Fits(Encoded(e, d + aligned), capacity)
  {
    hide Encoded, EncodedLen, Layout.Of, Layout.Fits;
    EncodedLength(e, d);
    EncodedLength(e, aligned);
    EncodedLenOfGroups(|d|, e.padded);
    EncodedLenOfGroups(|aligned|, e.padded);
    EncodedConcat(e, d, aligned);
    FitsStep(layout, Encoded(e, d), Encoded(e, aligned), capacity);
  }

  /** When one step of the encoder finds enough space. */
  lemma FitsStep(layout: Layout, text: bytes, x: bytes, capacity: nat)
    requires layout.Valid() && OneStep(layout, text, x)
    ensures layout.Fits(text + x, capacity) <==>
              if Breaks(layout, text, x) then |layout.Of(text)| + |x| + |layout.ending.Bytes()| < capacity
              else |layout.Of(text)| + |x| <= capacity
  {
    hide Layout.Of;
    LayoutStep(layout, text, x);
    LastBlockAfterStep(layout, text, x);
  }

  lemma LastBlockAfterStep(layout: Layout, text: bytes, x: bytes)
    requires layout.Valid() && OneStep(layout, text, x)
    ensures layout.LastBlockUnbroken(|text + x|) <==> !Breaks(layout, text, x)
  {
    hide Room, Wrapped;
    if layout.WrappedAt? {
      var n := |text + x|;
      if |x| <= 4 {
        RemainderUnique(n - 1, 4, |text| / 4, |x| - 1);
      } else {
        RemainderUnique(n - 1, 4, |text| / 4 + |x| / 4 - 1, 3);
        WrapAppend(text, x[..|x| - 4], layout.width, layout.ending.Bytes());
      }
    }
  }

  /** Encode buffer for a partial block. */
  class BlockBuffer {
    /** Three bytes of input. */
    var block: bytes
    var position: nat

    ghost predicate Valid()
      reads this
    {
      |block| == 3 && position <= 3
    }

    ghost function Contents(): bytes
      requires Valid()
      reads this
    {
      block[..position]
    }

    constructor ()
      ensures Valid() && Contents() == []
    {
      block, position := [0, 0, 0], 0;
    }

    /** Move as much of `input` into the buffer as fits. */
    method Fill(input: bytes) returns (rest: bytes)
      requires Valid()
      modifies this
      ensures Valid()
      ensures var len := Min(|input|, 3 - old(position));
              Contents() == old(Contents()) + input[..len] && rest == input[len..]
    {
      var len := Min(|input|, 3 - position);
      block := block[..position] + input[..len] + block[position + len..];
      position := position + len;
      rest := input[len..];
    }

    method Take() returns (full: bytes)
      requires Valid() && position == 3
      modifies this
      ensures Valid() && full == old(Contents()) && Contents() == []
    {
      full := block;
      block, position := [0, 0, 0], 0;
    }
  }

  /** Wraps lines while text is being written. */
  class LineWrapper {
    /** Characters that still fit on the current line. */
    var remaining: nat
    const width: nat
    const ending: LineEnding

    constructor (width: nat, ending: LineEnding)
      requires width >= MIN_LINE_WIDTH
      ensures remaining == this.width == width && this.ending == ending
    {
      remaining, this.width, this.ending := width, width, ending;
    }

    /** Cap a stride of blocks at the end of the line. */
    method WrapBlocks(blocks: nat) returns (capped: nat)
      ensures capped <= blocks && capped * 4 <= remaining
      ensures blocks * 4 <= remaining ==> capped == blocks
    {
      capped := if blocks * 4 >= remaining then remaining / 4 else blocks;
    }

    /** Move `n` bytes at `output[from..]` up by `k`, from the last to the first. */
    static method ShiftRight(output: array<u8>, from: nat, n: nat, k: nat)
      requires from + n + k <= output.Length
      modifies output
      ensures output[..from] == old(output[..from])
      ensures output[from + k..from + k + n] == old(output[from..from + n])
    {
      for i := n downto 0
        invariant output[..from + i] == old(output[..from + i])
        invariant output[from + i + k..from + n + k] == old(output[from + i..from + n])
      {
        output[from + i + k] := output[from + i];
      }
    }

    /** Break the line inside the `len` characters just written at `output[at..]`, shifting
        the characters of the next line to make space. */
    method InsertNewlines(output: array<u8>, at: nat, len: nat) returns (r: Result<nat, Error>)
      requires at + len <= output.Length
      requires remaining <= width && len <= remaining + width
      modifies this, output
      ensures output[..at] == old(output[..at])
      ensures old(remaining) >= len ==>
                r == Ok(len) && remaining == old(remaining) - len && output[..] == old(output[..])
      ensures old(remaining) < len ==>
                if at + len + |ending.Bytes()| >= output.Length then r == Err(InvalidLength)
                else
                  var x := old(output[at..at + len]);
                  r == Ok(len + |ending.Bytes()|) && remaining == width - (len - old(remaining)) &&
                  output[at..at + r.value] == x[..old(remaining)] + ending.Bytes() + x[old(remaining)..]
    {
      if len <= remaining {
        remaining := remaining - len;
        return Ok(len);
      }
      if at + len + |ending.Bytes()| >= output.Length {
        return Err(InvalidLength);
      }
      BreakLine(output, at, remaining, len, ending.Bytes());
      remaining := width - (len - remaining);
      r := Ok(len + |ending.Bytes()|);
    }

    /** Insert `newline` after the first `n` of the `len` characters at `output[at..]`. */
    static method BreakLine(output: array<u8>, at: nat, n: nat, len: nat, newline: bytes)
      requires n <= len && at + len + |newline| <= output.Length
      modifies output
      ensures output[..at] == old(output[..at])
      ensures var x := old(output[at..at + len]);
              output[at..at + len + |newline|] == x[..n] + newline + x[n..]
    {
      ghost var before := output[..];
      ShiftRight(output, at + n, len - n, |newline|);
      ghost var shifted := output[..];
      CopyFromSlice(output, at + n, newline);
      BrokenLine(before, shifted, output[..], at, n, len, newline);
    }

    /** The bytes before, between and after the two moves. */
    static lemma BrokenLine(
      before: bytes, shifted: bytes, after: bytes, at: nat, n: nat, len: nat, newline: bytes)
      requires n <= len && at + len + |newline| <= |before| == |shifted| == |after|
      requires var from, k := at + n, |newline|;
               shifted[..from] == before[..from] && after[..from] == shifted[..from] &&
               shifted[from + k..at + len + k] == before[from..at + len] &&
               after[from..from + k] == newline && after[from + k..] == shifted[from + k..]
      ensures after[..at] == before[..at]
      ensures var x := before[at..at + len];
              after[at..at + len + |newline|] == x[..n] + newline + x[n..]
    {
      var from, k, end := at + n, |newline|, at + len + |newline|;
      var x := before[at..at + len];
      assert after[..at] == after[..from][..at] && before[..at] == before[..from][..at];
      assert after[at..from] == after[..from][at..] && x[..n] == before[..from][at..];
      assert after[from + k..end] == after[from + k..][..len - n] && x[n..] == before[from..at + len];
      assert shifted[from + k..end] == shifted[from + k..][..len - n];
      assert after[at..end] == after[at..from] + after[from..from + k] + after[from + k..end];
    }
  }

  /** Stateful encoder writing to the slice `output[start..]`. */
  class Encoder {
    const e: Encoding
    const output: array<u8>
    const start: nat
    var position: nat
    const blockBuffer: BlockBuffer
    const lineWrapper: LineWrapper?
    /** All input consumed so far. */
    ghost var consumed: bytes

    ghost function Repr(): set<object> {
      if lineWrapper == null then {this, output, blockBuffer} else {this, output, blockBuffer, lineWrapper}
    }

    ghost function Config(): (layout: Layout) {
      if lineWrapper == null then Contiguous else WrappedAt(lineWrapper.width, lineWrapper.ending)
    }

    ghost function Capacity(): nat
      requires start <= output.Length
    {
      output.Length - start
    }

    /** The first `|d|` bytes of the input have been encoded and laid out. */
    ghost predicate Emitted(d: bytes)
      reads this`position, output, lineWrapper
    {
      var text := Encoded(e, d);
      Config().Valid() && start + position <= output.Length &&
      output[start..start + position] == Config().Of(text) &&
      (lineWrapper != null ==> lineWrapper.remaining == Room(lineWrapper.width, |text|))
    }

    ghost predicate Valid()
      reads Repr()
    {
      var n := |consumed| % 3;
      Config().Valid() && start + position <= output.Length &&
      blockBuffer.Valid() && blockBuffer.Contents() == consumed[|consumed| - n..] &&
      Emitted(consumed[..|consumed| - n]) &&
      Config().Fits(WholeBlocks(e, consumed), Capacity())
    }

    constructor (e: Encoding, output: array<u8>, start: nat, lineWrapper: LineWrapper?)
      requires start < output.Length
      requires lineWrapper != null ==>
                 lineWrapper.width >= MIN_LINE_WIDTH && lineWrapper.remaining == lineWrapper.width
      ensures Valid() && consumed == [] && position == 0
      ensures this.e == e && this.output == output && this.start == start && this.lineWrapper == lineWrapper
      ensures fresh(blockBuffer)
    {
      this.e, this.output, this.start, this.lineWrapper := e, output, start, lineWrapper;
      position := 0;
      blockBuffer := new BlockBuffer();
      consumed := [];
    }

    /** An encoder without line wrapping; an empty output buffer is refused. */
    static method New(e: Encoding, output: array<u8>, start: nat) returns (r: Result<Encoder, Error>)
      requires start <= output.Length
      ensures if start == output.Length then r == Err(InvalidLength) else r.Ok?
      ensures r.Ok? ==>
                var c := r.value;
                c.Valid() && c.consumed == [] && c.e == e && c.output == output && c.start == start &&
                c.Config() == Contiguous && fresh(c.Repr() - {output})
    {
      if start == output.Length {
        return Err(InvalidLength);
      }
      var c := new Encoder(e, output, start, null);
      r := Ok(c);
    }

    /** An encoder that wraps lines at `width`, which must be at least 4. */
    static method NewWrapped(e: Encoding, output: array<u8>, start: nat, width: nat, ending: LineEnding)
      returns (r: Result<Encoder, Error>)
      requires start <= output.Length
      ensures if start == output.Length || width < 4 then r == Err(InvalidLength) else r.Ok?
      ensures r.Ok? ==>
                var c := r.value;
                c.Valid() && c.consumed == [] && c.e == e && c.output == output && c.start == start &&
                c.Config() == WrappedAt(width, ending) && fresh(c.Repr() - {output})
    {
      if start == output.Length || width < MIN_LINE_WIDTH {
        return Err(InvalidLength);
      }
      var w := new LineWrapper(width, ending);
      var c := new Encoder(e, output, start, w);
      r := Ok(c);
    }

    /** Encode `input` after `d`, breaking the line as needed. */
    method PerformEncode(input: bytes, ghost d: bytes) returns (r: Result<nat, Error>)
      requires Emitted(d) && |d| % 3 == 0 && OneStep(Config(), Encoded(e, d), Encoded(e, input))
      modifies output, lineWrapper, this`position
      ensures output[..start] == old(output[..start])
      ensures r.Ok? ==> Emitted(d + input)
      ensures r.Ok? <==> Config().Fits(Encoded(e, d + input), Capacity())
      ensures r.Err? ==> r.error == InvalidLength
    {
      hide Encoded, Layout.Of, Layout.Fits, Room, StepOutput;
      ghost var text, x := Encoded(e, d), Encoded(e, input);
      EncodedConcat(e, d, input);
      LayoutStep(Config(), text, x);
      FitsStep(Config(), text, x, Capacity());
      var at := start + position;
      ghost var before := output[..];
      var written := Codec.Encode(e, input, output, at, output.Length);
      if written.Err? {
        return Err(written.error);
      }
      r := WrapLine(at, written.value, text);
      if r.Ok? {
        AppendOutput(before, output[..], start, at, StepOutput(Config(), text, x));
        position := position + r.value;
      }
    }

    /** Break the line in the `len` characters just written at `at`, after `text`, if they
        exceed it. */
    method WrapLine(at: nat, len: nat, ghost text: bytes) returns (r: Result<nat, Error>)
      requires Config().Valid() && at + len <= output.Length
      requires lineWrapper != null ==>
                 lineWrapper.remaining == Room(lineWrapper.width, |text|) &&
                 len <= lineWrapper.remaining + lineWrapper.width
      modifies output, lineWrapper
      ensures output[..at] == old(output[..at])
      ensures var x, layout := old(output[at..at + len]), Config();
              if Breaks(layout, text, x) && at + len + |layout.ending.Bytes()| >= output.Length then
                r == Err(InvalidLength)
              else
                r == Ok(|StepOutput(layout, text, x)|) && at + r.value <= output.Length &&
                output[at..at + r.value] == StepOutput(layout, text, x)
      ensures r.Ok? && lineWrapper != null ==>
                var room := Room(lineWrapper.width, |text|);
                lineWrapper.remaining == if len <= room then room - len else lineWrapper.width - (len - room)
    {
      hide Room;
      r := Ok(len);
      if lineWrapper != null {
        r := lineWrapper.InsertNewlines(output, at, len);
      }
    }

    /** Fill the block buffer with input, encoding it when it is full. */
    method ProcessBuffer(input: bytes) returns (r: Result<(), Error>, rest: bytes)
      requires Valid()
      modifies Repr()
      ensures var len := Min(|input|, 3 - |old(consumed)| % 3);
              rest == input[len..] && consumed == old(consumed) + input[..len]
      ensures r.Ok? ==> Valid()
      ensures r.Ok? <==> Config().Fits(WholeBlocks(e, consumed), Capacity())
      ensures r.Err? ==> r.error == InvalidLength
      ensures output[..start] == old(output[..start])
    {
      hide Encoded, Layout.Of, Layout.Fits, Encoder.Emitted;
      ghost var n := |consumed| % 3;
      ghost var d := consumed[..|consumed| - n];
      ghost var head := input[..Min(|input|, 3 - n)];
      WholeAndPart(consumed, head, n);
      rest := blockBuffer.Fill(input);
      consumed := consumed + head;
      r := Ok(());
      if blockBuffer.position == 3 {
        r := FlushBlock(d);
      }
    }

    /** Encode the full block buffer. */
    method FlushBlock(ghost d: bytes) returns (r: Result<(), Error>)
      requires Emitted(d) && |d| % 3 == 0
      requires blockBuffer.Valid() && blockBuffer.position == 3 && consumed == d + blockBuffer.Contents()
      modifies output, lineWrapper, blockBuffer, this`position
      ensures r.Ok? ==> Valid()
      ensures r.Ok? <==> Config().Fits(WholeBlocks(e, consumed), Capacity())
      ensures r.Err? ==> r.error == InvalidLength
      ensures output[..start] == old(output[..start])
    {
      hide Encoded, Layout.Of, Layout.Fits;
      var block := blockBuffer.Take();
      BlockIsOneStep(e, Config(), d, block);
      assert consumed[..|consumed| - 0] == consumed;
      var written := PerformEncode(block, d);
      r := match written case Ok(_) => Ok(()) case Err(error) => Err(error);
    }

    /** Encode `input`: as much of it as fills whole blocks is written now. */
    method Encode(input: bytes) returns (r: Result<(), Error>)
      requires Valid()
      modifies Repr()
      ensures r.Ok? ==> Valid() && consumed == old(consumed) + input
      ensures r.Ok? <==> Config().Fits(WholeBlocks(e, old(consumed) + input), Capacity())
      ensures r.Err? ==> r.error == InvalidLength
      ensures output[..start] == old(output[..start])
    {
      hide Encoded, Layout.Of, Layout.Fits, Encoder.Emitted, WholeBlocks;
      ghost var goal := consumed + input;
      var rest := input;
      r := Ok(());
      if blockBuffer.position != 0 {
        r, rest := ProcessBuffer(rest);
        assert consumed + rest == goal;
        if r.Err? {
          RefuseAll(goal, rest);
          return;
        }
      }
      while rest != []
        invariant r.Ok? && Valid() && consumed + rest == goal
        invariant rest == [] || |consumed| % 3 == 0
        invariant output[..start] == old(output[..start])
        decreases |rest|
      {
        r, rest := EncodeSome(rest);
        if r.Err? {
          RefuseAll(goal, rest);
          return;
        }
      }
      assert consumed == goal;
    }

    /** One pass of the loop of `encode`: a stride of whole blocks, then the block buffer. */
    method EncodeSome(input: bytes) returns (r: Result<(), Error>, rest: bytes)
      requires Valid() && |consumed| % 3 == 0 && input != []
      modifies Repr()
      ensures |rest| < |input| && consumed + rest == old(consumed) + input
      ensures r.Ok? ==> Valid() && (rest == [] || |consumed| % 3 == 0)
      ensures r.Ok? <==> Config().Fits(WholeBlocks(e, consumed), Capacity())
      ensures r.Err? ==> r.error == InvalidLength
      ensures output[..start] == old(output[..start])
    {
      hide Encoded, Layout.Of, Layout.Fits, Encoder.Emitted, WholeBlocks;
      ghost var goal := consumed + input;
      rest := EncodeStride(input);
      assert consumed + rest == goal;
      r := Ok(());
      if rest != [] {
        ghost var len := Min(|rest|, 3);
        assert rest == rest[..len] + rest[len..];
        assert consumed + rest[..len] + rest[len..] == goal;
        r, rest := ProcessBuffer(rest);
      }
    }

    lemma RefuseAll(goal: bytes, rest: bytes)
      requires start <= output.Length && Config().Valid()
      requires consumed + rest == goal && !Config().Fits(WholeBlocks(e, consumed), Capacity())
      ensures !Config().Fits(WholeBlocks(e, goal), Capacity())
    {
      if Config().Fits(WholeBlocks(e, goal), Capacity()) {
        WholeBlocksFit(e, Config(), consumed, rest, Capacity());
      }
    }

    /** Number of whole blocks to encode next, capped at the end of the output and of the line. */
    method StrideBlocks(available: nat) returns (blocks: nat)
      requires start + position <= output.Length
      ensures 3 * blocks <= available && start + position + 4 * blocks <= output.Length
      ensures lineWrapper != null ==> 4 * blocks <= lineWrapper.remaining
    {
      blocks := Min(available / 3, (output.Length - start - position) / 4);
      if lineWrapper != null {
        blocks := lineWrapper.WrapBlocks(blocks);
      }
    }

    /** Encode a stride of whole blocks. */
    method EncodeStride(input: bytes) returns (rest: bytes)
      requires Valid() && |consumed| % 3 == 0
      modifies Repr()
      ensures Valid() && |consumed| % 3 == 0
      ensures |rest| <= |input| && consumed + rest == old(consumed) + input
      ensures output[..start] == old(output[..start])
    {
      hide Encoded, Layout.Of, Layout.Fits, Encoder.Emitted, WholeBlocks;
      rest := input;
      var blocks := StrideBlocks(|input|);
      if blocks > 0 {
        rest := input[3 * blocks..];
        assert input == input[..3 * blocks] + rest;
        EncodeAligned(input[..3 * blocks]);
      }
    }

    method EncodeAligned(aligned: bytes)
      requires Valid() && |consumed| % 3 == |aligned| % 3 == 0 && aligned != []
      requires start + position + |aligned| / 3 * 4 <= output.Length
      requires lineWrapper != null ==> |aligned| / 3 * 4 <= lineWrapper.remaining
      modifies Repr()
      ensures Valid() && consumed == old(consumed) + aligned
      ensures output[..start] == old(output[..start])
    {
      hide Encoded, Layout.Of, Layout.Fits;
      ghost var d := consumed;
      assert d[..|d| - 0] == d;
      RemainderUnique(|d + aligned|, 3, |d| / 3 + |aligned| / 3, 0);
      StrideFits(e, Config(), d, aligned, Capacity());
      var written := PerformEncode(aligned, d);
      consumed := d + aligned;
      assert consumed[..|consumed| - 0] == consumed;
    }

    /** Write the last, partial block and return the number of bytes written in all. */
    method FinishWithRemaining() returns (r: Result<nat, Error>)
      requires Valid()
      modifies Repr()
      ensures r.Ok? ==>
                start + r.value <= output.Length &&
                output[start..start + r.value] == Config().Of(Encoded(e, consumed))
      ensures r.Ok? <==> Config().Fits(Encoded(e, consumed), Capacity())
      ensures r.Err? ==> r.error == InvalidLength
      ensures consumed == old(consumed) && output[..start] == old(output[..start])
    {
      hide Encoded, Layout.Of, Layout.Fits;
      ghost var d := consumed[..|consumed| - |consumed| % 3];
      assert consumed == d + blockBuffer.Contents();
      if blockBuffer.position != 0 {
        var block := blockBuffer.block[..blockBuffer.position];
        BlockIsOneStep(e, Config(), d, block);
        var written := PerformEncode(block, d);
        if written.Err? {
          return Err(written.error);
        }
      } else {
        assert consumed == d;
      }
      r := Ok(position);
    }
  }
}
