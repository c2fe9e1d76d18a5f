/** The text forms of date-times: RFC 3339 strings (der/src/datetime.rs) and the values of
    the ASN.1 type `UTCTime` (der/src/asn1/utc_time.rs). */
module DateTimeText {
  import opened Bits
  import opened Calendar
  import opened Decimals
  import opened Wrappers

  const DASH: u8 := 45
  const COLON: u8 := 58
  const UPPER_T: u8 := 84
  const UPPER_Z: u8 := 90

  function DecodeDecimal(hi: u8, lo: u8): Option<u8> {
    if IsDigit(hi) && IsDigit(lo) then
      var tens: u8 := (hi - ZERO) * 10;
      var sum: u8 := tens + (lo - ZERO);
      Some(sum)
    else None
  }

  function EncodeDecimal(value: u8): Option<bytes> {
    var hi := value / 10;
    if hi >= 10 then None else Some([ZERO + hi, ZERO + value % 10])
  }

  function DecodeYear(y1: u8, y2: u8, y3: u8, y4: u8): Option<u16> {
    match (DecodeDecimal(y1, y2), DecodeDecimal(y3, y4))
    case (Some(hi), Some(lo)) => Some((hi as int) * 100 + lo)
    case _ => None
  }

  /** Formatting with `{:02}`. */
  function AtLeastTwoDigits(n: nat): bytes {
    if n < 10 then [ZERO] + Digits(n) else Digits(n)
  }

  function Display(t: DateTime): bytes {
    AtLeastTwoDigits(t.year) + [DASH] + AtLeastTwoDigits(t.month) + [DASH] + AtLeastTwoDigits(t.day) + [UPPER_T] +
    AtLeastTwoDigits(t.hour) + [COLON] + AtLeastTwoDigits(t.minutes) + [COLON] + AtLeastTwoDigits(t.seconds) + [UPPER_Z]
  }

  /** `from_str`. */
  function Parse(s: bytes): Option<DateTime> {
    if |s| == 20 && s[4] == DASH && s[7] == DASH && s[10] == UPPER_T && s[13] == COLON && s[16] == COLON &&
       s[19] == UPPER_Z
    then
      match DecodeYear(s[0], s[1], s[2], s[3])
      case None => None
      case Some(year) =>
        match (DecodeDecimal(s[5], s[6]), DecodeDecimal(s[8], s[9]), DecodeDecimal(s[11], s[12]),
               DecodeDecimal(s[14], s[15]), DecodeDecimal(s[17], s[18]))
        case (Some(month), Some(day), Some(hour), Some(minutes), Some(seconds)) =>
          FromYmdHms(year, month, day, hour, minutes, seconds)
        case _ => None
    else None
  }

  /** Two digits and the number below 100 that they denote determine each other. */
  lemma TwoDigits(hi: u8, lo: u8, v: u8)
    ensures DecodeDecimal(hi, lo) == Some(v) <==> v < 100 && EncodeDecimal(v) == Some([hi, lo])
    ensures v < 100 ==> EncodeDecimal(v) == Some(AtLeastTwoDigits(v))
  {
    if v < 100 {
      var tens, ones := v / 10, v % 10;
      assert Digits(v) == if v < 10 then [ZERO + v] else Digits(tens) + [ZERO + ones];
      assert Digits(tens) == [ZERO + tens];
      assert AtLeastTwoDigits(v) == [ZERO + tens, ZERO + ones];
    }
    if DecodeDecimal(hi, lo) == Some(v) {
      RemainderUnique(v, 10, hi - ZERO, lo - ZERO);
    }
  }

  lemma FourDigits(y1: u8, y2: u8, y3: u8, y4: u8, year: u16)
    requires 1000 <= year <= 9999
    ensures DecodeYear(y1, y2, y3, y4) == Some(year) <==> AtLeastTwoDigits(year) == [y1, y2, y3, y4]
  {
    hide Digits, DecodeDecimal, AtLeastTwoDigits;
    var hi: u8, lo: u8 := year / 100, year % 100;
    DigitsOfYear(year);
    TwoDigits(y1, y2, hi);
    TwoDigits(y3, y4, lo);
    assert DecodeDecimal(y1, y2) == Some(hi) && DecodeDecimal(y3, y4) == Some(lo) <==>
           AtLeastTwoDigits(year) == [y1, y2, y3, y4];
    if DecodeYear(y1, y2, y3, y4) == Some(year) {
      var h, l := DecodeDecimal(y1, y2).value, DecodeDecimal(y3, y4).value;
      TwoDigits(y3, y4, l);
      RemainderUnique(year, 100, h, l);
    }
  }

  lemma DigitsOfYear(year: u16)
    requires 1000 <= year <= 9999
    ensures var hi, lo := year / 100, year % 100;
            AtLeastTwoDigits(year) == [ZERO + hi / 10, ZERO + hi % 10, ZERO + lo / 10, ZERO + lo % 10]
  {
    hide Digits;
    var hi, lo := year / 100, year % 100;
    RemainderUnique(year, 10, 10 * hi + lo / 10, lo % 10);
    RemainderUnique(year / 10, 10, hi, lo / 10);
    LastDigit(year);
    LastDigit(year / 10);
    LastDigit(hi);
    OneDigit(hi / 10);
  }

  lemma OneDigit(n: nat)
    requires n < 10
    ensures Digits(n) == [ZERO + n]
  {
  }

  lemma LastDigit(n: nat)
    requires n >= 10
    ensures Digits(n) == Digits(n / 10) + [ZERO + n % 10]
  {
  }

  /** The fields that `from_str` reads, before they are checked. */
  ghost predicate Reads(s: bytes, t: DateTime) {
    |s| == 20 && s[4] == DASH && s[7] == DASH && s[10] == UPPER_T && s[13] == COLON && s[16] == COLON &&
    s[19] == UPPER_Z && DecodeYear(s[0], s[1], s[2], s[3]) == Some(t.year) &&
    DecodeDecimal(s[5], s[6]) == Some(t.month) && DecodeDecimal(s[8], s[9]) == Some(t.day) &&
    DecodeDecimal(s[11], s[12]) == Some(t.hour) && DecodeDecimal(s[14], s[15]) == Some(t.minutes) &&
    DecodeDecimal(s[17], s[18]) == Some(t.seconds)
  }

  lemma ReadsDisplay(s: bytes, t: DateTime)
    requires IsDateTime(t)
    ensures Reads(s, t) <==> Display(t) == s
  {
    hide Digits, DecodeDecimal, EncodeDecimal, AtLeastTwoDigits, DecodeYear;
    var year, month, day := AtLeastTwoDigits(t.year), AtLeastTwoDigits(t.month), AtLeastTwoDigits(t.day);
    var hour, minutes, seconds := AtLeastTwoDigits(t.hour), AtLeastTwoDigits(t.minutes), AtLeastTwoDigits(t.seconds);
    DigitsOfYear(t.year);
    forall v: u8 | v < 100 ensures |AtLeastTwoDigits(v)| == 2 {
      TwoDigitsLength(v);
    }
    if |s| == 20 {
      FourDigits(s[0], s[1], s[2], s[3], t.year);
      TwoDigits(s[5], s[6], t.month);
      TwoDigits(s[8], s[9], t.day);
      TwoDigits(s[11], s[12], t.hour);
      TwoDigits(s[14], s[15], t.minutes);
      TwoDigits(s[17], s[18], t.seconds);
      DisplayParts(s, year, month, day, hour, minutes, seconds);
    }
  }

  lemma TwoDigitsLength(v: u8)
    requires v < 100
    ensures |AtLeastTwoDigits(v)| == 2
  {
    assert Digits(v / 10) == [ZERO + v / 10];
  }

  lemma DisplayParts(s: bytes, year: bytes, month: bytes, day: bytes, hour: bytes, minutes: bytes, seconds: bytes)
    requires |s| == 20 && |year| == 4 && |month| == |day| == |hour| == |minutes| == |seconds| == 2
    ensures s == year + [DASH] + month + [DASH] + day + [UPPER_T] + hour + [COLON] + minutes + [COLON] + seconds + [UPPER_Z]
            <==>
            s[4] == DASH && s[7] == DASH && s[10] == UPPER_T && s[13] == COLON && s[16] == COLON && s[19] == UPPER_Z &&
            year == [s[0], s[1], s[2], s[3]] && month == [s[5], s[6]] && day == [s[8], s[9]] &&
            hour == [s[11], s[12]] && minutes == [s[14], s[15]] && seconds == [s[17], s[18]]
  {
  }

  /** Parsing accepts exactly what formatting produces. */
  lemma ParsesExactlyDisplayed(s: bytes, t: DateTime)
    ensures Parse(s) == Some(t) <==> IsDateTime(t) && Display(t) == s
  {
    hide IsDateTime, Digits, DecodeDecimal, AtLeastTwoDigits, DecodeYear, FromYmdHms, Display;
    DateTimesAreBuilt(t);
    if IsDateTime(t) {
      ReadsDisplay(s, t);
    }
    if Parse(s) == Some(t) {
      ParsedIsBuilt(s, t);
    }
  }

  lemma ParsedIsBuilt(s: bytes, t: DateTime)
    requires Parse(s) == Some(t)
    ensures Reads(s, t) && FromYmdHms(t.year, t.month, t.day, t.hour, t.minutes, t.seconds) == Some(t)
  {
    hide DecodeDecimal, DecodeYear;
  }

  /** Two digits and the number they denote, in characters. */
  predicate TwoDigitsAt(s: bytes, i: nat, v: int)
    requires i + 2 <= |s|
  {
    '0' as int <= s[i] <= '9' as int && '0' as int <= s[i + 1] <= '9' as int &&
    v == 10 * (s[i] - '0' as int) + (s[i + 1] - '0' as int)
  }

  lemma TwoDigitsInCharacters(v: u8)
    requires v < 100
    ensures |AtLeastTwoDigits(v)| == 2 && TwoDigitsAt(AtLeastTwoDigits(v), 0, v)
    ensures EncodeDecimal(v) == Some(AtLeastTwoDigits(v))
  {
    TwoDigits(0, 0, v);
    TwoDigitsLength(v);
  }

  /** A date-time in characters, as in `2026-01-31T23:59:59Z`. */
  lemma DisplayInCharacters(t: DateTime)
    requires IsDateTime(t)
    ensures var s := Display(t);
            |s| == 20 && TwoDigitsAt(s, 0, t.year / 100) && TwoDigitsAt(s, 2, t.year % 100) && s[4] == '-' as int &&
            TwoDigitsAt(s, 5, t.month) && s[7] == '-' as int && TwoDigitsAt(s, 8, t.day) && s[10] == 'T' as int &&
            TwoDigitsAt(s, 11, t.hour) && s[13] == ':' as int && TwoDigitsAt(s, 14, t.minutes) &&
            s[16] == ':' as int && TwoDigitsAt(s, 17, t.seconds) && s[19] == 'Z' as int
  {
    hide Digits, AtLeastTwoDigits, EncodeDecimal, DayNumber;
    DigitsOfYear(t.year);
    TwoDigitsInCharacters(t.month);
    TwoDigitsInCharacters(t.day);
    TwoDigitsInCharacters(t.hour);
    TwoDigitsInCharacters(t.minutes);
    TwoDigitsInCharacters(t.seconds);
  }

  // ----- UTCTime -----

  /** Length of a `UTCTime` value. */
  const UTC_TIME_LENGTH: nat := 13
  const UTC_TIME_MAX_YEAR: u16 := 2049

  /** Two digits of the year, which must be between 1950 and 2049. */
  function EncodeUtcTime(t: DateTime): Option<bytes> {
    var year := if 1950 <= t.year <= 1999 then Some(t.year - 1900)
                else if 2000 <= t.year <= 2049 then Some(t.year - 2000)
                else None;
    match year
    case None => None
    case Some(yy) =>
      match (EncodeDecimal(yy), EncodeDecimal(t.month), EncodeDecimal(t.day),
             EncodeDecimal(t.hour), EncodeDecimal(t.minutes), EncodeDecimal(t.seconds))
      case (Some(y), Some(month), Some(day), Some(hour), Some(minutes), Some(seconds)) =>
        Some(y + month + day + hour + minutes + seconds + [UPPER_Z])
      case _ => None
  }

  /** The fields of a `UTCTime` value, with the year completed. */
  function UtcTimeFields(s: bytes): Option<DateTime> {
    if |s| == UTC_TIME_LENGTH && s[12] == UPPER_Z then
      match (DecodeDecimal(s[0], s[1]), DecodeDecimal(s[2], s[3]), DecodeDecimal(s[4], s[5]),
             DecodeDecimal(s[6], s[7]), DecodeDecimal(s[8], s[9]), DecodeDecimal(s[10], s[11]))
      case (Some(yy), Some(month), Some(day), Some(hour), Some(minutes), Some(seconds)) =>
        var year: u16 := if yy >= 50 then yy as int + 1900 else yy as int + 2000;
        FromYmdHms(year, month, day, hour, minutes, seconds)
      case _ => None
    else None
  }

  /** `UTCTime` values and the date-times from 1970 to 2049 determine each other. */
  method DecodeUtcTime(s: bytes) returns (r: Option<DateTime>)
    ensures forall t: DateTime ::
              r == Some(t) <==> IsDateTime(t) && t.year <= UTC_TIME_MAX_YEAR && EncodeUtcTime(t) == Some(s)
  {
    hide IsDateTime, UtcTimeFields, EncodeUtcTime;
    var fields := UtcTimeFields(s);
    forall t: DateTime
      ensures fields == Some(t) <==> IsDateTime(t) && t.year <= UTC_TIME_MAX_YEAR && EncodeUtcTime(t) == Some(s)
    {
      UtcTimeFieldsAreExact(s, t);
    }
    if fields.None? {
      return None;
    }
    assert fields == Some(fields.value);
    var t := FromUnixDuration(fields.value.unixDuration);
    assert t == Some(fields.value);
    r := if t.value.year <= UTC_TIME_MAX_YEAR then t else None;
  }

  /** A `UTCTime` value in characters, as in `260131235959Z`: the last two digits of a year from 1950
      to 2049. */
  lemma UtcTimeInCharacters(t: DateTime)
    requires IsDateTime(t)
    ensures EncodeUtcTime(t).Some? <==> t.year < 2050
    ensures EncodeUtcTime(t).Some? ==>
              var s := EncodeUtcTime(t).value;
              |s| == 13 && TwoDigitsAt(s, 0, t.year % 100) && TwoDigitsAt(s, 2, t.month) && TwoDigitsAt(s, 4, t.day) &&
              TwoDigitsAt(s, 6, t.hour) && TwoDigitsAt(s, 8, t.minutes) && TwoDigitsAt(s, 10, t.seconds) &&
              s[12] == 'Z' as int
  {
    hide Digits, AtLeastTwoDigits, EncodeDecimal, DayNumber;
    if t.year < 2050 {
      TwoDigitsInCharacters(t.year % 100);
    }
    TwoDigitsInCharacters(t.month);
    TwoDigitsInCharacters(t.day);
    TwoDigitsInCharacters(t.hour);
    TwoDigitsInCharacters(t.minutes);
    TwoDigitsInCharacters(t.seconds);
  }

  lemma UtcTimeFieldsAreExact(s: bytes, t: DateTime)
    ensures UtcTimeFields(s) == Some(t) <==>
            IsDateTime(t) && t.year <= UTC_TIME_MAX_YEAR && EncodeUtcTime(t) == Some(s)
  {
    hide IsDateTime, Digits, DecodeDecimal, EncodeDecimal, FromYmdHms, AtLeastTwoDigits;
    DateTimesAreBuilt(t);
    if UtcTimeFields(s) == Some(t) {
      UtcTimeIsRead(s, t);
    }
    if IsDateTime(t) && t.year <= UTC_TIME_MAX_YEAR && EncodeUtcTime(t) == Some(s) {
      UtcTimeIsWritten(s, t);
    }
  }

  lemma UtcTimeIsRead(s: bytes, t: DateTime)
    requires UtcTimeFields(s) == Some(t)
    ensures FromYmdHms(t.year, t.month, t.day, t.hour, t.minutes, t.seconds) == Some(t)
    ensures t.year <= UTC_TIME_MAX_YEAR && EncodeUtcTime(t) == Some(s)
  {
    hide IsDateTime, Digits, DecodeDecimal, EncodeDecimal, AtLeastTwoDigits, DayNumber;
    var yy := DecodeDecimal(s[0], s[1]).value;
    TwoDigits(s[0], s[1], yy);
    TwoDigits(s[2], s[3], t.month);
    TwoDigits(s[4], s[5], t.day);
    TwoDigits(s[6], s[7], t.hour);
    TwoDigits(s[8], s[9], t.minutes);
    TwoDigits(s[10], s[11], t.seconds);
    assert s == [s[0], s[1]] + [s[2], s[3]] + [s[4], s[5]] + [s[6], s[7]] + [s[8], s[9]] + [s[10], s[11]] + [UPPER_Z];
  }

  lemma UtcTimeIsWritten(s: bytes, t: DateTime)
    requires IsDateTime(t) && t.year <= UTC_TIME_MAX_YEAR && EncodeUtcTime(t) == Some(s)
    requires FromYmdHms(t.year, t.month, t.day, t.hour, t.minutes, t.seconds) == Some(t)
    ensures UtcTimeFields(s) == Some(t)
  {
    hide Digits, DecodeDecimal, FromYmdHms, AtLeastTwoDigits, DayNumber;
    var yy: u8 := if t.year <= 1999 then t.year - 1900 else t.year - 2000;
    TwoDigits(s[0], s[1], yy);
    TwoDigits(s[2], s[3], t.month);
    TwoDigits(s[4], s[5], t.day);
    TwoDigits(s[6], s[7], t.hour);
    TwoDigits(s[8], s[9], t.minutes);
    TwoDigits(s[10], s[11], t.seconds);
  }
}
