/** Line wrapping of Base64 text (base64ct/src/line_ending.rs, and the line reader of
    base64ct/src/decoder.rs). */
module Lines {
  import opened Bits
  import opened Alphabets
  import opened Wrappers

  /** The minimum supported line width. */
  const MIN_LINE_WIDTH: nat := 4

  datatype LineEnding = CR | LF | CRLF {
    function Bytes(): (s: bytes)
      ensures 1 <= |s| <= 2
    {
      match this
      case CR => [CHAR_CR]
      case LF => [CHAR_LF]
      case CRLF => [CHAR_CR, CHAR_LF]
    }
  }

  // ----- writing lines -----

  /** `text` cut into lines of exactly `width` characters, the last one of 1 to `width`,
      joined by `ending`: no newline after the last line. */
  function Wrapped(text: bytes, width: nat, ending: bytes): (s: bytes)
    requires width > 0
  {
    if |text| <= width then text else text[..width] + ending + Wrapped(text[width..], width, ending)
  }

  /** Characters that still fit on the last line after `n` characters. */
  function Room(width: nat, n: nat): (r: nat)
    requires width > 0
    ensures r <= width
  {
    if n == 0 then width else width - 1 - (n - 1) % width
  }

  lemma RoomOfRest(width: nat, n: nat)
    requires 0 < width < n
    ensures Room(width, n) == Room(width, n - width)
  {
    RemainderUnique(n - 1, width, (n - 1 - width) / width + 1, (n - 1 - width) % width);
  }

  lemma RoomOfShort(width: nat, n: nat)
    requires 0 < width && n <= width
    ensures Room(width, n) == width - n
  {
    if n > 0 {
      RemainderUnique(n - 1, width, 0, n - 1);
    }
  }

  /** Appending at most one line's worth of characters adds at most one line ending, where
      the last line is full. */
  lemma {:induction false} WrapAppend(text: bytes, x: bytes, width: nat, ending: bytes)
    requires width > 0 && |x| <= Room(width, |text|) + width
    ensures var r := Room(width, |text|);
            if |x| <= r then
              Wrapped(text + x, width, ending) == Wrapped(text, width, ending) + x &&
              Room(width, |text + x|) == r - |x|
            else
              Wrapped(text + x, width, ending) == Wrapped(text, width, ending) + x[..r] + ending + x[r..] &&
              Room(width, |text + x|) == width - (|x| - r)
    decreases |text|
  {
    hide Room, Wrapped;
    if |text| <= width {
      RoomOfShort(width, |text|);
      WrapAppendToLine(text, x, width, ending);
    } else {
      var rest := text[width..];
      RoomOfRest(width, |text|);
      RoomOfRest(width, |text + x|);
      WrapAppend(rest, x, width, ending);
      assert (text + x)[..width] == text[..width] && (text + x)[width..] == rest + x;
      WrapsFirstLine(text, width, ending);
      WrapsFirstLine(text + x, width, ending);
    }
  }

  lemma WrapsFirstLine(text: bytes, width: nat, ending: bytes)
    requires 0 < width < |text|
    ensures Wrapped(text, width, ending) == text[..width] + ending + Wrapped(text[width..], width, ending)
  {
  }

  /** The case of a single line. */
  lemma WrapAppendToLine(text: bytes, x: bytes, width: nat, ending: bytes)
    requires width > 0 && |text| <= width && |text + x| <= 2 * width
    ensures var r := Room(width, |text|);
            if |x| <= r then
              Wrapped(text + x, width, ending) == Wrapped(text, width, ending) + x &&
              Room(width, |text + x|) == r - |x|
            else
              Wrapped(text + x, width, ending) == Wrapped(text, width, ending) + x[..r] + ending + x[r..] &&
              Room(width, |text + x|) == width - (|x| - r)
  {
    hide Room;
    RoomOfShort(width, |text|);
    var r := Room(width, |text|);
    if |x| <= r {
      RoomOfShort(width, |text + x|);
    } else {
      assert (text + x)[..width] == text + x[..r] && (text + x)[width..] == x[r..];
      RoomOfRest(width, |text + x|);
      RoomOfShort(width, |x| - r);
    }
  }

  /** Length of `n` characters wrapped at `width` with line endings of length `k`. */
  function WrappedLen(n: nat, width: nat, k: nat): nat
    requires width > 0
  {
    n + (if n == 0 then 0 else (n - 1) / width) * k
  }

  lemma {:induction false} WrappedLength(text: bytes, width: nat, ending: bytes)
    requires width > 0
    ensures |Wrapped(text, width, ending)| == WrappedLen(|text|, width, |ending|)
  {
    if |text| > width {
      WrappedLength(text[width..], width, ending);
      WrappedLenOfRest(|text|, width, |ending|);
    } else if text != [] {
      RemainderUnique(|text| - 1, width, 0, |text| - 1);
    }
  }

  lemma WrappedLenOfRest(n: nat, width: nat, k: nat)
    requires 0 < width < n
    ensures WrappedLen(n, width, k) == width + k + WrappedLen(n - width, width, k)
  {
    var q := (n - width - 1) / width;
    RemainderUnique(n - 1, width, q + 1, (n - width - 1) % width);
    assert (q + 1) * k == q * k + k;
  }

  lemma {:induction false} CharacterOfLine(text: bytes, width: nat, ending: bytes, i: nat)
    requires width > 0 && i < |text|
    ensures var s, at := Wrapped(text, width, ending), i + i / width * |ending|; at < |s| && s[at] == text[i]
    decreases |text|
  {
    hide Wrapped;
    var k := |ending|;
    if |text| <= width {
      OnlyLine(text, width, ending);
      RemainderUnique(i, width, 0, i);
    } else {
      WrapsFirstLine(text, width, ending);
      if i < width {
        RemainderUnique(i, width, 0, i);
      } else {
        CharacterOfLine(text[width..], width, ending, i - width);
        var q := (i - width) / width;
        RemainderUnique(i, width, q + 1, (i - width) % width);
        assert (q + 1) * k == q * k + k;
        assert Wrapped(text, width, ending)[width + k..] == Wrapped(text[width..], width, ending);
      }
    }
  }

  lemma OnlyLine(text: bytes, width: nat, ending: bytes)
    requires width > 0 && |text| <= width
    ensures Wrapped(text, width, ending) == text
  {
  }

  lemma {:induction false} EndingOfLine(text: bytes, width: nat, ending: bytes, j: nat)
    requires width > 0 && (j + 1) * width < |text|
    ensures var s, at := Wrapped(text, width, ending), (j + 1) * width + j * |ending|;
            at + |ending| <= |s| && s[at..at + |ending|] == ending
    decreases j
  {
    hide Wrapped;
    var k, s := |ending|, Wrapped(text, width, ending);
    assert (j + 1) * width == width + j * width;
    WrapsFirstLine(text, width, ending);
    if j > 0 {
      EndingOfLine(text[width..], width, ending, j - 1);
      var at := j * width + (j - 1) * k;
      assert (j - 1) * k + k == j * k;
      assert s[width + k..] == Wrapped(text[width..], width, ending);
      assert s[width + k..][at..at + k] == s[width + k + at..width + k + at + k];
    }
  }

  /** Character `i` is preceded by one newline for each full line before it. */
  predicate HasCharacter(s: bytes, text: bytes, width: nat, k: nat, i: nat)
    requires width > 0 && i < |text|
  {
    var at := i + i / width * k;
    at < |s| && s[at] == text[i]
  }

  /** The newline that was asked for follows line `j`. */
  predicate HasNewline(s: bytes, width: nat, ending: LineEnding, j: nat) {
    var newline := match ending case CR => Ascii("\r") case LF => Ascii("\n") case CRLF => Ascii("\r\n");
    var at := (j + 1) * width + j * |newline|;
    at + |newline| <= |s| && s[at..at + |newline|] == newline
  }

  lemma NewlineOfLine(text: bytes, width: nat, ending: LineEnding, j: nat)
    requires width > 0 && (j + 1) * width < |text|
    ensures HasNewline(Wrapped(text, width, ending.Bytes()), width, ending, j)
  {
    hide Wrapped;
    EndingOfLine(text, width, ending.Bytes(), j);
    assert Ascii("\r") == [CHAR_CR] && Ascii("\n") == [CHAR_LF] && Ascii("\r\n") == [CHAR_CR, CHAR_LF];
  }

  /** Wrapped text in terms of its positions.  With its length, this determines it. */
  lemma WrappedByPosition(text: bytes, width: nat, ending: LineEnding)
    requires width > 0
    ensures var s, k := Wrapped(text, width, ending.Bytes()), if ending == CRLF then 2 else 1;
            |s| == |text| + (if text == [] then 0 else (|text| - 1) / width) * k &&
            (forall i :: 0 <= i < |text| ==> HasCharacter(s, text, width, k, i)) &&
            forall j: nat :: (j + 1) * width < |text| ==> HasNewline(s, width, ending, j)
  {
    hide Wrapped, HasNewline;
    var e := ending.Bytes();
    WrappedLength(text, width, e);
    forall i | 0 <= i < |text| ensures HasCharacter(Wrapped(text, width, e), text, width, |e|, i) {
      CharacterOfLine(text, width, e, i);
    }
    forall j: nat | (j + 1) * width < |text| ensures HasNewline(Wrapped(text, width, e), width, ending, j) {
      NewlineOfLine(text, width, ending, j);
    }
  }

  /** More text never wraps to less output. */
  lemma WrappedLenMonotone(m: nat, n: nat, width: nat, k: nat)
    requires width > 0 && m <= n
    ensures WrappedLen(m, width, k) <= WrappedLen(n, width, k)
  {
    if m > 0 {
      DivMonotone(m - 1, n - 1, width);
      MulMonotone((m - 1) / width, (n - 1) / width, k);
    }
  }

  lemma DivMonotone(x: nat, y: nat, d: nat)
    requires x <= y && d > 0
    ensures x / d <= y / d
  {
    if x / d > y / d {
      MulAtLeast(d, x / d, y / d + 1);
    }
  }

  lemma MulMonotone(x: nat, y: nat, k: nat)
    requires x <= y
    ensures x * k <= y * k
  {
  }

  /** `s` is `text` wrapped at `width` with any mixture of line endings. */
  ghost predicate IsWrapping(s: bytes, text: bytes, width: nat)
    requires width > 0
    decreases |text|
  {
    if |text| <= width then s == text
    else exists ending: LineEnding ::
      text[..width] + ending.Bytes() <= s &&
      IsWrapping(s[width + |ending.Bytes()|..], text[width..], width)
  }

  lemma {:induction false} WrappedIsWrapping(text: bytes, width: nat, ending: LineEnding)
    requires width > 0
    ensures IsWrapping(Wrapped(text, width, ending.Bytes()), text, width)
    decreases |text|
  {
    if |text| > width {
      WrappedIsWrapping(text[width..], width, ending);
      var s := Wrapped(text, width, ending.Bytes());
      assert s[width + |ending.Bytes()|..] == Wrapped(text[width..], width, ending.Bytes());
    }
  }

  // ----- reading lines -----

  /** `trim_end`: without the newline at the end of a line. */
  function TrimEnd(line: bytes): (trimmed: bytes)
    ensures trimmed <= line
  {
    var n := |line|;
    if n >= 2 && line[n - 2] == CHAR_CR && line[n - 1] == CHAR_LF then line[..n - 2]
    else if n >= 1 && (line[n - 1] == CHAR_CR || line[n - 1] == CHAR_LF) then line[..n - 1]
    else line
  }

  datatype LineStep = End | Malformed | Line(line: bytes, rest: bytes)

  /** One step of the line reader over wrapped (`Some(width)`) or contiguous data. */
  function NextLine(remaining: bytes, lineWidth: Option<nat>): (step: LineStep)
    ensures step.Line? ==> |step.line| + |step.rest| <= |remaining| && |step.rest| < |remaining|
    ensures step.Line? && step.rest != [] ==> lineWidth.Some? && |step.line| == lineWidth.value
  {
    match lineWidth
    case Some(width) =>
      if |remaining| <= width then
        if remaining == [] then End else Line(TrimEnd(remaining), [])
      else if remaining[width] == CHAR_CR then
        if |remaining| > width + 1 && remaining[width + 1] == CHAR_LF then
          Line(remaining[..width], remaining[width + 2..])
        else
          Line(remaining[..width], remaining[width + 1..])
      else if remaining[width] == CHAR_LF then Line(remaining[..width], remaining[width + 1..])
      else Malformed
    case None =>
      if TrimEnd(remaining) == [] then End else Line(TrimEnd(remaining), [])
  }

  /** The Base64 characters of all remaining lines, unless a line is not properly ended. */
  function Text(remaining: bytes, lineWidth: Option<nat>): (text: Option<bytes>)
    ensures text.Some? ==> |text.value| <= |remaining|
    decreases |remaining|
  {
    match NextLine(remaining, lineWidth)
    case End => Some([])
    case Malformed => None
    case Line(line, rest) =>
      match Text(rest, lineWidth)
      case None => None
      case Some(text) => Some(line + text)
  }

  /** No line is empty: in particular, no newline after the last line of wrapped data. */
  predicate NoBlankLines(remaining: bytes, lineWidth: Option<nat>)
    decreases |remaining|
  {
    match NextLine(remaining, lineWidth)
    case End => remaining == []
    case Malformed => true
    case Line(line, rest) => line != [] && NoBlankLines(rest, lineWidth)
  }

  ghost predicate NoNewlines(text: bytes) {
    forall i :: 0 <= i < |text| ==> text[i] != CHAR_CR && text[i] != CHAR_LF
  }

  /** Reading undoes wrapping, whatever mixture of line endings was used. */
  lemma {:induction false} TextOfWrapping(s: bytes, text: bytes, width: nat)
    requires width > 0 && IsWrapping(s, text, width) && NoNewlines(text)
    ensures Text(s, Some(width)) == Some(text) && NoBlankLines(s, Some(width))
    decreases |text|
  {
    hide NextLine, LineEnding.Bytes, NoNewlines, Text, NoBlankLines;
    if |text| <= width {
      TextOfLastLine(text, width);
    } else {
      var ending: LineEnding :|
        text[..width] + ending.Bytes() <= s &&
        IsWrapping(s[width + |ending.Bytes()|..], text[width..], width);
      var rest := s[width + |ending.Bytes()|..];
      NoNewlinesInParts(text, width);
      TextOfWrapping(rest, text[width..], width);
      FirstLineOfWrapping(s, text, width, ending);
      LineThenText(s, Some(width));
      assert text == text[..width] + text[width..];
    }
  }

  lemma LineThenText(s: bytes, lineWidth: Option<nat>)
    requires NextLine(s, lineWidth).Line? && Text(NextLine(s, lineWidth).rest, lineWidth).Some?
    ensures var (line, rest) := (NextLine(s, lineWidth).line, NextLine(s, lineWidth).rest);
            Text(s, lineWidth) == Some(line + Text(rest, lineWidth).value) &&
            (NoBlankLines(s, lineWidth) <==> line != [] && NoBlankLines(rest, lineWidth))
  {
    hide NextLine;
  }

  lemma NoNewlinesInParts(text: bytes, i: nat)
    requires i <= |text|
    ensures NoNewlines(text) ==> NoNewlines(text[..i]) && NoNewlines(text[i..])
  {
  }

  lemma TextOfLastLine(text: bytes, width: nat)
    requires |text| <= width && NoNewlines(text)
    ensures Text(text, Some(width)) == Some(text) && NoBlankLines(text, Some(width))
  {
    assert Text([], Some(width)) == Some([]) && NoBlankLines([], Some(width));
    assert TrimEnd(text) == text && text + [] == text;
  }

  lemma FirstLineOfWrapping(s: bytes, text: bytes, width: nat, ending: LineEnding)
    requires 0 < width < |text| && NoNewlines(text)
    requires text[..width] + ending.Bytes() <= s
    requires IsWrapping(s[width + |ending.Bytes()|..], text[width..], width)
    ensures NextLine(s, Some(width)) == Line(text[..width], s[width + |ending.Bytes()|..])
  {
    hide Text, NoBlankLines, IsWrapping;
    var rest := s[width + |ending.Bytes()|..];
    WrappingStarts(rest, text[width..], width);
    assert rest[0] == s[width + |ending.Bytes()|] == text[width];
    assert s[..width] == (text[..width] + ending.Bytes())[..width] == text[..width];
    assert s[width..width + |ending.Bytes()|] == ending.Bytes();
  }

  lemma WrappingStarts(s: bytes, text: bytes, width: nat)
    requires width > 0 && IsWrapping(s, text, width) && text != []
    ensures s != [] && s[0] == text[0]
  {
  }

  /** `text`, and perhaps a newline, which is as long as it can be. */
  ghost predicate IsLastLine(s: bytes, text: bytes) {
    text <= s &&
    var newline := s[|text|..];
    newline in {[], Ascii("\r"), Ascii("\n"), Ascii("\r\n")} &&
    (newline == [] && text != [] ==> text[|text| - 1] != '\r' as int && text[|text| - 1] != '\n' as int) &&
    (newline == Ascii("\n") && text != [] ==> text[|text| - 1] != '\r' as int)
  }

  /** Lines of exactly `width` characters, each with a newline, and the last one. */
  ghost predicate AreLines(s: bytes, text: bytes, width: nat)
    requires width > 0
    decreases |s|
  {
    if |s| <= width then IsLastLine(s, text)
    else
      exists n :: 1 <= n <= 2 && width + n <= |s| && IsNewline(s, width, n) &&
        s[..width] <= text && AreLines(s[width + n..], text[width..], width)
  }

  /** The `n` bytes at `at` are a newline, and no longer one starts there. */
  predicate IsNewline(s: bytes, at: nat, n: nat)
    requires at + n <= |s|
  {
    if n == 2 then s[at] == '\r' as int && s[at + 1] == '\n' as int
    else n == 1 && (s[at] == '\n' as int || (s[at] == '\r' as int && (at + 1 == |s| || s[at + 1] != '\n' as int)))
  }

  /** Exactly which input is read as which text, whatever the text is. */
  lemma {:induction false} TextIsExactly(s: bytes, text: bytes, lineWidth: Option<nat>)
    requires lineWidth.Some? ==> lineWidth.value > 0
    ensures Text(s, lineWidth) == Some(text) <==>
            if lineWidth.None? then IsLastLine(s, text) else AreLines(s, text, lineWidth.value)
    decreases |s|
  {
    hide NextLine, TrimEnd, IsLastLine, IsNewline;
    NextLineParts(s, lineWidth);
    var step := NextLine(s, lineWidth);
    if lineWidth.None? || |s| <= lineWidth.value {
      LastLineIsTrimmed(s, text);
      LastLineIsTrimmed([], []);
      assert TrimEnd(s) + [] == TrimEnd(s);
      assert Text([], lineWidth) == Some([]);
    } else if step.Line? {
      var width, n := lineWidth.value, |s| - lineWidth.value - |step.rest|;
      if s[..width] <= text {
        TextIsExactly(step.rest, text[width..], lineWidth);
        assert text == s[..width] + text[width..];
      }
    }
  }

  /** What one step of the line reader finds. */
  lemma NextLineParts(s: bytes, lineWidth: Option<nat>)
    requires lineWidth.Some? ==> lineWidth.value > 0
    ensures var step := NextLine(s, lineWidth);
            if lineWidth.None? || |s| <= lineWidth.value then
              step == (if s == [] || (lineWidth.None? && TrimEnd(s) == []) then End else Line(TrimEnd(s), []))
            else
              var width := lineWidth.value;
              !step.End? &&
              (step.Line? ==>
                 var n := |s| - width - |step.rest|;
                 1 <= n <= 2 && step.line == s[..width] && step.rest == s[width + n..] && IsNewline(s, width, n)) &&
              forall n :: 1 <= n <= 2 && width + n <= |s| && IsNewline(s, width, n) ==>
                step.Line? && n == |s| - width - |step.rest|
    ensures TrimEnd([]) == [] && NextLine([], lineWidth) == End
  {
  }

  lemma LastLineIsTrimmed(s: bytes, text: bytes)
    ensures IsLastLine(s, text) <==> text == TrimEnd(s)
  {
    var n := |s|;
    if text <= s {
      assert s == text + s[|text|..];
      assert |text| + 1 == n ==> s[|text|..] == [s[n - 1]];
      assert |text| + 2 == n ==> s[|text|..] == [s[n - 2], s[n - 1]];
      assert |text| == n ==> text == s;
      assert |text| + 1 == n && n >= 2 ==> text[n - 2] == s[n - 2];
    }
    var cr, lf, crlf := Ascii("\r"), Ascii("\n"), Ascii("\r\n");
    assert cr == [CHAR_CR] && lf == [CHAR_LF] && crlf == [CHAR_CR, CHAR_LF];
  }

  lemma TextOfContiguous(text: bytes)
    requires NoNewlines(text)
    ensures Text(text, None) == Some(text) && NoBlankLines(text, None)
  {
    assert TrimEnd(text) == text && text + [] == text;
    assert Text([], None) == Some([]) && NoBlankLines([], None);
  }
}
