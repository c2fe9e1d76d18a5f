/** Calendar arithmetic (der/src/datetime.rs) against a calendar that counts days one year
    and one month at a time. */
module Calendar {
  import opened Bits
  import opened Wrappers

  type u16 = x: int | 0 <= x < 0x1_0000

  const MIN_YEAR: u16 := 1970
  const MAX_YEAR: u16 := 9999
  /** 9999-12-31T23:59:59Z. */
  const MAX_UNIX_DURATION: nat := 253_402_300_799

  datatype DateTime = DateTime(
    year: u16, month: u8, day: u8, hour: u8, minutes: u8, seconds: u8, unixDuration: nat)

  // ----- the calendar -----

  predicate IsLeap(year: int) {
    year % 4 == 0 && (year % 100 != 0 || year % 400 == 0)
  }

  function MonthDays(year: int, month: int): int {
    if month == 2 then (if IsLeap(year) then 29 else 28)
    else if month == 4 || month == 6 || month == 9 || month == 11 then 30
    else 31
  }

  /** Days in the months before `month`. */
  function DaysBeforeMonth(year: int, month: int): nat
    requires 1 <= month <= 13
    decreases month
  {
    if month == 1 then 0 else DaysBeforeMonth(year, month - 1) + MonthDays(year, month - 1)
  }

  /** Days from the epoch to the first day of `year`. */
  function DaysBeforeYear(year: int): nat
    requires year >= 1970
    decreases year
  {
    if year == 1970 then 0 else DaysBeforeYear(year - 1) + DaysBeforeMonth(year - 1, 13)
  }

  /** Leap years from 1970 up to, but not including, `year`. */
  function LeapYearsBefore(year: int): nat
    requires year >= 1970
    decreases year
  {
    if year == 1970 then 0 else LeapYearsBefore(year - 1) + if IsLeap(year - 1) then 1 else 0
  }

  predicate ValidDateTime(year: int, month: int, day: int, hour: int, minutes: int, seconds: int) {
    MIN_YEAR <= year <= MAX_YEAR && 1 <= month <= 12 && 1 <= day <= MonthDays(year, month) &&
    0 <= hour <= 23 && 0 <= minutes <= 59 && 0 <= seconds <= 59
  }

  function DayNumber(year: int, month: int, day: int): int
    requires year >= 1970 && 1 <= month <= 12
  {
    DaysBeforeYear(year) + DaysBeforeMonth(year, month) + day - 1
  }

  function SecondsSinceEpoch(year: int, month: int, day: int, hour: int, minutes: int, seconds: int): int
    requires year >= 1970 && 1 <= month <= 12
  {
    DayNumber(year, month, day) * 86400 + hour * 3600 + minutes * 60 + seconds
  }

  /** A date-time made by one of the constructors. */
  predicate IsDateTime(t: DateTime) {
    ValidDateTime(t.year, t.month, t.day, t.hour, t.minutes, t.seconds) &&
    t.unixDuration == SecondsSinceEpoch(t.year, t.month, t.day, t.hour, t.minutes, t.seconds)
  }

  // ----- from fields to seconds -----

  /** Days before the month in a common year, and days in the month. */
  function MonthTable(month: u8, leap: bool): Option<(u16, u8)> {
    match month
    case 1 => Some((0, 31))
    case 2 => Some((31, if leap then 29 else 28))
    case 3 => Some((59, 31))
    case 4 => Some((90, 30))
    case 5 => Some((120, 31))
    case 6 => Some((151, 30))
    case 7 => Some((181, 31))
    case 8 => Some((212, 31))
    case 9 => Some((243, 30))
    case 10 => Some((273, 31))
    case 11 => Some((304, 30))
    case 12 => Some((334, 31))
    case _ => None
  }

  /** The closed form for the number of leap years: no step leaves the range of `u16`. */
  function LeapYears(year: u16): u16
    requires year >= MIN_YEAR
  {
    var sinceLeap: u16 := (year - 1) - 1968;
    var sinceCentury: u16 := (year - 1) - 1900;
    var sinceCycle: u16 := (year - 1) - 1600;
    var notCenturies: u16 := sinceLeap / 4 - sinceCentury / 100;
    notCenturies + sinceCycle / 400
  }

  function FromYmdHms(year: u16, month: u8, day: u8, hour: u8, minutes: u8, seconds: u8): Option<DateTime> {
    if year < MIN_YEAR || !(1 <= month <= 12) || !(1 <= day <= 31) ||
       !(0 <= hour <= 23) || !(0 <= minutes <= 59) || !(0 <= seconds <= 59)
    then None
    else
      var leap := year % 4 == 0 && (year % 100 != 0 || year % 400 == 0);
      match MonthTable(month, leap)
      case None => None
      case Some((monthStart, mdays)) =>
        if day > mdays || day == 0 then None
        else
          var ydays: u16 := monthStart + (day - 1) + if leap && month > 2 then 1 else 0;
          var days := (year - 1970) * 365 + LeapYears(year) + ydays;
          var time := seconds + minutes * 60 + hour * 3600;
          var unixDuration := time + days * 86400;
          if unixDuration > MAX_UNIX_DURATION then None
          else Some(DateTime(year, month, day, hour, minutes, seconds, unixDuration))
  }

  lemma MonthTableIsCalendar(year: int, month: u8)
    requires 1 <= month <= 12
    ensures MonthTable(month, IsLeap(year)).Some?
    ensures var (monthStart, mdays) := MonthTable(month, IsLeap(year)).value;
            mdays == MonthDays(year, month) &&
            DaysBeforeMonth(year, month) == monthStart + if IsLeap(year) && month > 2 then 1 else 0
  {
    MonthStarts(year);
  }

  /** The first day of every month. */
  lemma MonthStarts(year: int)
    ensures var leap := if IsLeap(year) then 1 else 0;
            DaysBeforeMonth(year, 1) == 0 && DaysBeforeMonth(year, 2) == 31 &&
            DaysBeforeMonth(year, 3) == 59 + leap && DaysBeforeMonth(year, 4) == 90 + leap &&
            DaysBeforeMonth(year, 5) == 120 + leap && DaysBeforeMonth(year, 6) == 151 + leap &&
            DaysBeforeMonth(year, 7) == 181 + leap && DaysBeforeMonth(year, 8) == 212 + leap &&
            DaysBeforeMonth(year, 9) == 243 + leap && DaysBeforeMonth(year, 10) == 273 + leap &&
            DaysBeforeMonth(year, 11) == 304 + leap && DaysBeforeMonth(year, 12) == 334 + leap &&
            DaysBeforeMonth(year, 13) == 365 + leap
  {
    hide IsLeap;
    assert DaysBeforeMonth(year, 5) == 120 + (if IsLeap(year) then 1 else 0);
    assert DaysBeforeMonth(year, 9) == 243 + (if IsLeap(year) then 1 else 0);
  }

  /** The Gregorian calendar, day after day: thirty days have September, April, June and November,
      February has 29 in the years divisible by four but not by a hundred, or by four hundred. */
  lemma DayAfter(year: int, month: int, day: int)
    requires year >= 1970 && 1 <= month <= 12 && 1 <= day <= MonthDays(year, month)
    ensures var last :=
              if month in {4, 6, 9, 11} then 30
              else if month != 2 then 31
              else if (year % 4 == 0 && year % 100 != 0) || year % 400 == 0 then 29 else 28;
            MonthDays(year, month) == last &&
            DayNumber(year, month, day) + 1 ==
            if day < last then DayNumber(year, month, day + 1)
            else if month < 12 then DayNumber(year, month + 1, 1)
            else DayNumber(year + 1, 1, 1)
    ensures DayNumber(1970, 1, 1) == 0
  {
    hide DaysBeforeYear;
    assert DaysBeforeYear(1970) == 0 by {
      DaysFromLeapYears(1970);
      NoLeapYears();
    }
    assert year + 1 > 1970 && DaysBeforeYear(year + 1) == DaysBeforeYear(year) + DaysBeforeMonth(year, 13) by {
      YearAfter(year);
    }
    Coarser(year);
  }

  lemma YearAfter(year: int)
    requires year >= 1970
    ensures DaysBeforeYear(year + 1) == DaysBeforeYear(year) + DaysBeforeMonth(year, 13)
  {
    hide DaysBeforeMonth;
  }

  lemma NoLeapYears()
    ensures LeapYearsBefore(1970) == 0
  {
  }

  /** 1991-05-06T23:45:40Z, and both ends of the range. */
  lemma KnownDurations()
    ensures FromYmdHms(1991, 5, 6, 23, 45, 40) == Some(DateTime(1991, 5, 6, 23, 45, 40, 673_573_540))
    ensures FromYmdHms(1970, 1, 1, 0, 0, 0) == Some(DateTime(1970, 1, 1, 0, 0, 0, 0))
    ensures FromYmdHms(9999, 12, 31, 23, 59, 59) == Some(DateTime(9999, 12, 31, 23, 59, 59, 253_402_300_799))
    ensures FromYmdHms(1969, 12, 31, 23, 59, 59) == FromYmdHms(10000, 1, 1, 0, 0, 0) == None
  {
    hide LeapYears, MonthTable;
    LeapYearsOfKnown();
    MonthsOfKnown();
  }

  lemma LeapYearsOfKnown()
    ensures LeapYears(1970) == 0 && LeapYears(1991) == 5 && LeapYears(9999) == LeapYears(10000) == 1947
  {
  }

  lemma MonthsOfKnown()
    ensures MonthTable(1, false) == Some((0, 31)) && MonthTable(5, false) == Some((120, 31))
    ensures MonthTable(12, false) == Some((334, 31)) && MonthTable(1, true) == Some((0, 31))
  {
  }

  /** The closed form counts the leap years. */
  lemma {:induction false} LeapYearsAreCounted(year: u16)
    requires year >= MIN_YEAR
    ensures LeapYears(year) == LeapYearsBefore(year)
    decreases year
  {
    if year > MIN_YEAR {
      LeapYearsAreCounted(year - 1);
      LeapYearsStep(year - 1);
    }
  }

  lemma LeapYearsStep(year: u16)
    requires MIN_YEAR <= year < 0xFFFF
    ensures LeapYears(year + 1) == LeapYears(year) + if IsLeap(year) then 1 else 0
  {
    Multiples(year, 1968, 4);
    Multiples(year, 1900, 100);
    Multiples(year, 1600, 400);
    Coarser(year);
  }

  /** Counting multiples of `d` by division. */
  lemma Multiples(year: int, base: int, d: int)
    requires d > 1 && base % d == 0
    ensures (year - base) / d == (year - 1 - base) / d + if year % d == 0 then 1 else 0
  {
    var q, r := (year - base) / d, (year - base) % d;
    var b := base / d;
    assert d * (q + b) == d * q + d * b && d * (q - 1) == d * q - d;
    RemainderUnique(year, d, q + b, r);
    if r > 0 {
      RemainderUnique(year - 1 - base, d, q, r - 1);
    } else {
      RemainderUnique(year - 1 - base, d, q - 1, d - 1);
    }
  }

  lemma Coarser(year: int)
    ensures year % 400 == 0 ==> year % 100 == 0
    ensures year % 100 == 0 ==> year % 4 == 0
  {
  }

  /** Days before a year, from the number of leap years. */
  lemma {:induction false} DaysFromLeapYears(year: int)
    requires year >= 1970
    ensures DaysBeforeYear(year) == (year - 1970) * 365 + LeapYearsBefore(year)
    decreases year
  {
    hide IsLeap;
    if year > 1970 {
      DaysFromLeapYears(year - 1);
      MonthStarts(year - 1);
    }
  }

  lemma {:induction false} YearsIncrease(earlier: int, later: int)
    requires 1970 <= earlier <= later
    ensures DaysBeforeYear(earlier) + 365 * (later - earlier) <= DaysBeforeYear(later)
    decreases later
  {
    hide DaysBeforeMonth;
    if earlier < later {
      YearsIncrease(earlier, later - 1);
      MonthStarts(later - 1);
    }
  }

  lemma {:induction false} MonthsIncrease(year: int, earlier: int, later: int)
    requires 1 <= earlier < later <= 13
    ensures DaysBeforeMonth(year, earlier) + MonthDays(year, earlier) <= DaysBeforeMonth(year, later)
    decreases later
  {
    if earlier < later - 1 {
      MonthsIncrease(year, earlier, later - 1);
    }
  }

  /** A day of a month lies within its year. */
  lemma DayInYear(year: int, month: int, day: int)
    requires year >= 1970 && 1 <= month <= 12 && 1 <= day <= MonthDays(year, month)
    ensures DaysBeforeYear(year) <= DayNumber(year, month, day) < DaysBeforeYear(year + 1)
  {
    MonthsIncrease(year, month, 13);
  }

  lemma DaysOfRange()
    ensures DaysBeforeYear(MAX_YEAR + 1) * 86400 == MAX_UNIX_DURATION + 1
  {
    DaysFromLeapYears(MAX_YEAR + 1);
    LeapYearsAreCounted(MAX_YEAR + 1);
    assert LeapYears(10000) == 1947;
  }

  lemma SecondsOfDay(days: int, hour: int, minutes: int, seconds: int)
    requires 0 <= hour <= 23 && 0 <= minutes <= 59 && 0 <= seconds <= 59
    ensures days * 86400 <= days * 86400 + hour * 3600 + minutes * 60 + seconds < (days + 1) * 86400
  {
  }

  /** The durations in range are those of the years up to 9999. */
  lemma RangeOfYears(year: int, month: int, day: int, hour: int, minutes: int, seconds: int)
    requires year >= 1970 && 1 <= month <= 12 && 1 <= day <= MonthDays(year, month)
    requires 0 <= hour <= 23 && 0 <= minutes <= 59 && 0 <= seconds <= 59
    ensures SecondsSinceEpoch(year, month, day, hour, minutes, seconds) <= MAX_UNIX_DURATION <==> year <= MAX_YEAR
  {
    hide DaysBeforeYear, DaysBeforeMonth, MonthDays;
    DaysOfRange();
    DayInYear(year, month, day);
    SecondsOfDay(DayNumber(year, month, day), hour, minutes, seconds);
    if year <= MAX_YEAR {
      YearsIncrease(year + 1, MAX_YEAR + 1);
    } else {
      YearsIncrease(MAX_YEAR + 1, year);
    }
  }

  /** `from_ymd_hms` accepts exactly the valid date-times from 1970 to 9999, and stores the
      seconds since the epoch. */
  lemma FromYmdHmsIsExact(year: u16, month: u8, day: u8, hour: u8, minutes: u8, seconds: u8)
    ensures FromYmdHms(year, month, day, hour, minutes, seconds) ==
            if ValidDateTime(year, month, day, hour, minutes, seconds) then
              Some(DateTime(year, month, day, hour, minutes, seconds,
                            SecondsSinceEpoch(year, month, day, hour, minutes, seconds)))
            else None
  {
    hide DaysBeforeYear, DaysBeforeMonth, MonthTable, LeapYears, LeapYearsBefore;
    if year >= 1970 && 1 <= month <= 12 {
      MonthTableIsCalendar(year, month);
      LeapYearsAreCounted(year);
      DaysFromLeapYears(year);
      if 1 <= day <= MonthDays(year, month) && hour <= 23 && minutes <= 59 && seconds <= 59 {
        RangeOfYears(year, month, day, hour, minutes, seconds);
      }
    }
  }

  /** The date-times are what `from_ymd_hms` returns for their own fields. */
  lemma DateTimesAreBuilt(t: DateTime)
    ensures IsDateTime(t) <==> FromYmdHms(t.year, t.month, t.day, t.hour, t.minutes, t.seconds) == Some(t)
  {
    hide FromYmdHms, DayNumber;
    FromYmdHmsIsExact(t.year, t.month, t.day, t.hour, t.minutes, t.seconds);
  }

  // ----- order -----

  predicate DateBefore(s: DateTime, t: DateTime) {
    s.year < t.year || (s.year == t.year && (s.month < t.month || (s.month == t.month && s.day < t.day)))
  }

  predicate SameDate(s: DateTime, t: DateTime) {
    s.year == t.year && s.month == t.month && s.day == t.day
  }

  /** The derived order: the fields, from the year down. */
  predicate Before(s: DateTime, t: DateTime) {
    DateBefore(s, t) ||
    (SameDate(s, t) &&
     (s.hour < t.hour || (s.hour == t.hour && (s.minutes < t.minutes ||
      (s.minutes == t.minutes && (s.seconds < t.seconds ||
       (s.seconds == t.seconds && s.unixDuration < t.unixDuration)))))))
  }

  lemma DatesIncrease(s: DateTime, t: DateTime)
    requires IsDateTime(s) && IsDateTime(t) && DateBefore(s, t)
    ensures DayNumber(s.year, s.month, s.day) < DayNumber(t.year, t.month, t.day)
  {
    hide DaysBeforeYear, DaysBeforeMonth, MonthDays, SecondsSinceEpoch;
    DayInYear(s.year, s.month, s.day);
    DayInYear(t.year, t.month, t.day);
    if s.year < t.year {
      YearsIncrease(s.year + 1, t.year);
    } else if s.month < t.month {
      MonthsIncrease(s.year, s.month, t.month);
    }
  }

  lemma BeforeMeansEarlier(s: DateTime, t: DateTime)
    requires IsDateTime(s) && IsDateTime(t) && Before(s, t)
    ensures s.unixDuration < t.unixDuration
  {
    hide DayNumber, MonthDays;
    SecondsOfDay(DayNumber(s.year, s.month, s.day), s.hour, s.minutes, s.seconds);
    SecondsOfDay(DayNumber(t.year, t.month, t.day), t.hour, t.minutes, t.seconds);
    if DateBefore(s, t) {
      DatesIncrease(s, t);
    }
  }

  /** Order on the fields is order on the durations, and no two dates share a duration. */
  lemma OrderIsDuration(s: DateTime, t: DateTime)
    requires IsDateTime(s) && IsDateTime(t)
    ensures Before(s, t) <==> s.unixDuration < t.unixDuration
    ensures s == t <==> s.unixDuration == t.unixDuration
  {
    hide IsDateTime;
    if Before(s, t) {
      BeforeMeansEarlier(s, t);
    } else if Before(t, s) {
      BeforeMeansEarlier(t, s);
    }
  }

  // ----- from seconds to fields -----

  /** 2000-03-01, the day after a leap day of a year divisible by 400. */
  const LEAPOCH: int := 11017
  const DAYS_PER_400Y: int := 365 * 400 + 97
  const DAYS_PER_100Y: int := 365 * 100 + 24
  const DAYS_PER_4Y: int := 365 * 4 + 1

  /** Month lengths from March to February. */
  const MARCH_MONTHS: seq<int> := [31, 30, 31, 30, 31, 31, 30, 31, 30, 31, 31, 29]

  /** Division that truncates toward zero. */
  function TruncDiv(x: int, d: int): int
    requires d > 0
  {
    if x < 0 then -(-x / d) else x / d
  }

  /** Days from the first of March to the first of the month that follows `i` months. */
  function MarchStart(i: nat): int
    requires i <= 12
  {
    if i == 0 then 0 else MarchStart(i - 1) + MARCH_MONTHS[i - 1]
  }

  /** A year that starts in March, and a day of it. */
  datatype MarchDay = MarchDay(year: int, day: int)

  /** Days from the epoch, when the year that follows has started. */
  ghost predicate IsMarchDay(m: MarchDay, days: int) {
    m.year >= 1969 && 0 <= m.day <= 365 && (m.day == 365 ==> IsLeap(m.year + 1)) &&
    DaysBeforeYear(m.year + 1) - 306 + m.day == days
  }

  /** Truncating division, corrected for the days before 2000-03-01. */
  method SplitQuadricentennials(days: int) returns (cycles: int, rest: int)
    ensures 0 <= rest < DAYS_PER_400Y && DAYS_PER_400Y * cycles + rest == days
  {
    cycles := TruncDiv(days, DAYS_PER_400Y);
    rest := days - cycles * DAYS_PER_400Y;
    if rest < 0 {
      rest := rest + DAYS_PER_400Y;
      cycles := cycles - 1;
    }
  }

  /** Whole cycles of `period` days, of which there are at most `max`: the last one may be a day longer. */
  method SplitCapped(days: int, period: int, max: int) returns (cycles: int, rest: int)
    requires period in {DAYS_PER_100Y, DAYS_PER_4Y, 365} && max in {3, 24}
    requires 0 <= days <= period * (max + 1)
    ensures 0 <= cycles <= max && 0 <= rest <= period && period * cycles + rest == days
    ensures rest == period ==> days == period * (max + 1)
  {
    cycles := days / period;
    if cycles == max + 1 {
      cycles := cycles - 1;
    }
    rest := days - cycles * period;
  }

  /** Reduce by cycles of 400, 100, 4 and 1 years. */
  method SplitCycles(epochDays: nat) returns (m: MarchDay)
    requires epochDays <= MAX_UNIX_DURATION / 86400
    ensures 0 <= m.day <= 365 && IsMarchDay(m, epochDays)
  {
    hide IsMarchDay;
    var qcCycles, days := SplitQuadricentennials(epochDays - LEAPOCH);
    var cCycles, centuryDays := SplitCapped(days, DAYS_PER_100Y, 3);
    var qCycles, cycleDays := SplitCapped(centuryDays, DAYS_PER_4Y, 24);
    var remyears, remdays := SplitCapped(cycleDays, 365, 3);
    var year := 2000 + remyears + 4 * qCycles + 100 * cCycles + 400 * qcCycles;
    m := MarchDay(year, remdays);
    CyclesAreMarchDay(qcCycles, cCycles, qCycles, remyears, remdays);
  }

  lemma CyclesAreMarchDay(qc: int, c: int, q: int, r: int, day: int)
    requires 0 <= c <= 3 && 0 <= q <= 24 && 0 <= r <= 3 && 0 <= day <= 365
    requires day == 365 ==> r == 3 && (q == 24 ==> c == 3)
    requires var days := LEAPOCH + DAYS_PER_400Y * qc + DAYS_PER_100Y * c + DAYS_PER_4Y * q + 365 * r + day;
             0 <= days <= MAX_UNIX_DURATION / 86400
    ensures IsMarchDay(MarchDay(2000 + r + 4 * q + 100 * c + 400 * qc, day),
                       LEAPOCH + DAYS_PER_400Y * qc + DAYS_PER_100Y * c + DAYS_PER_4Y * q + 365 * r + day)
  {
    hide DaysBeforeYear;
    YearBounds(qc, c, q, r, day);
    MarchFirst(qc, c, q, r);
    if day == 365 {
      LeapDayYear(qc, c, q);
    }
  }

  lemma YearBounds(qc: int, c: int, q: int, r: int, day: int)
    requires 0 <= c <= 3 && 0 <= q <= 24 && 0 <= r <= 3 && 0 <= day <= 365
    requires var days := LEAPOCH + DAYS_PER_400Y * qc + DAYS_PER_100Y * c + DAYS_PER_4Y * q + 365 * r + day;
             0 <= days <= MAX_UNIX_DURATION / 86400
    ensures 1969 <= 2000 + r + 4 * q + 100 * c + 400 * qc < 20000
  {
    assert -1 <= qc <= 20;
  }

  /** The first of March, by cycles. */
  lemma MarchFirst(qc: int, c: int, q: int, r: int)
    requires 0 <= c <= 3 && 0 <= q <= 24 && 0 <= r <= 3
    requires 1969 <= 2000 + r + 4 * q + 100 * c + 400 * qc < 20000
    ensures DaysBeforeYear(2000 + r + 4 * q + 100 * c + 400 * qc + 1) - 306 ==
            LEAPOCH + DAYS_PER_400Y * qc + DAYS_PER_100Y * c + DAYS_PER_4Y * q + 365 * r
  {
    hide DaysBeforeYear, LeapYearsBefore, LeapYears;
    var next := 2000 + r + 4 * q + 100 * c + 400 * qc + 1;
    LeapYearsByCycles(qc, c, q, r);
    DaysOfClosedForm(next);
    CycleDays(qc, c, q, r);
  }

  lemma CycleDays(qc: int, c: int, q: int, r: int)
    ensures 365 * (2000 + r + 4 * q + 100 * c + 400 * qc + 1 - 1970) + (8 + 97 * qc + 24 * c + q) - 306 ==
            LEAPOCH + DAYS_PER_400Y * qc + DAYS_PER_100Y * c + DAYS_PER_4Y * q + 365 * r
  {
  }

  lemma DaysOfClosedForm(year: u16)
    requires year >= MIN_YEAR
    ensures DaysBeforeYear(year) == 365 * (year - 1970) + LeapYears(year)
  {
    hide DaysBeforeYear, LeapYearsBefore, LeapYears;
    DaysFromLeapYears(year);
    LeapYearsAreCounted(year);
  }

  lemma LeapYearsByCycles(qc: int, c: int, q: int, r: int)
    requires 0 <= c <= 3 && 0 <= q <= 24 && 0 <= r <= 3
    requires 1969 <= 2000 + r + 4 * q + 100 * c + 400 * qc < 20000
    ensures LeapYears(2000 + r + 4 * q + 100 * c + 400 * qc + 1) == 8 + 97 * qc + 24 * c + q
  {
    var year := 2000 + r + 4 * q + 100 * c + 400 * qc;
    RemainderUnique(year - 1968, 4, 8 + 100 * qc + 25 * c + q, r);
    RemainderUnique(year - 1900, 100, 1 + 4 * qc + c, 4 * q + r);
    RemainderUnique(year - 1600, 400, 1 + qc, 100 * c + 4 * q + r);
  }

  /** The last day of a cycle of four years is a leap day, except at the end of three of four centuries. */
  lemma LeapDayYear(qc: int, c: int, q: int)
    requires 0 <= c <= 3 && 0 <= q <= 24 && (q == 24 ==> c == 3)
    ensures IsLeap(2000 + 3 + 4 * q + 100 * c + 400 * qc + 1)
  {
    var year := 2004 + 4 * q + 100 * c + 400 * qc;
    RemainderUnique(year, 4, 501 + q + 25 * c + 100 * qc, 0);
    if q == 24 {
      RemainderUnique(year, 400, 6 + qc, 0);
    } else {
      RemainderUnique(year, 100, 20 + c + 4 * qc, 4 * q + 4);
    }
  }

  /** The month, counted from March, and the day of it. */
  method SplitMonth(day: int) returns (mon: int, rest: int)
    requires 0 <= day <= 365
    ensures 1 <= mon <= 12 && 0 <= rest < MARCH_MONTHS[mon - 1] && MarchStart(mon - 1) + rest == day
  {
    mon, rest := 0, day;
    assert MarchStart(12) == 366 by {
      assert MarchStart(6) == 184;
    }
    for i := 0 to |MARCH_MONTHS|
      invariant mon == i && 0 <= rest && MarchStart(i) + rest == day
    {
      mon := mon + 1;
      if rest < MARCH_MONTHS[i] {
        return;
      }
      rest := rest - MARCH_MONTHS[i];
    }
  }

  lemma MarchStarts()
    ensures MarchStart(0) == 0 && MarchStart(1) == 31 && MarchStart(2) == 61 && MarchStart(3) == 92
    ensures MarchStart(4) == 122 && MarchStart(5) == 153 && MarchStart(6) == 184 && MarchStart(7) == 214
    ensures MarchStart(8) == 245 && MarchStart(9) == 275 && MarchStart(10) == 306 && MarchStart(11) == 337
  {
    assert MarchStart(4) == 122;
    assert MarchStart(8) == 245;
  }

  /** Back from the year that starts in March. */
  lemma CalendarDay(m: MarchDay, days: int, mon: int, rest: int)
    requires IsMarchDay(m, days) && days >= 0
    requires 1 <= mon <= 12 && 0 <= rest < MARCH_MONTHS[mon - 1] && MarchStart(mon - 1) + rest == m.day
    ensures var year := if mon + 2 > 12 then m.year + 1 else m.year;
            var month := if mon + 2 > 12 then mon - 10 else mon + 2;
            year >= 1970 && 1 <= rest + 1 <= MonthDays(year, month) && DayNumber(year, month, rest + 1) == days
  {
    hide DaysBeforeMonth, IsLeap;
    MarchStarts();
    if mon + 2 > 12 {
      MonthStarts(m.year + 1);
    } else if m.year >= 1970 {
      MonthStarts(m.year);
    }
  }

  /** Every duration up to the maximum is that of the date it is converted to, and every
      date-time comes back from its own duration. */
  method FromUnixDuration(unixDuration: nat) returns (r: Option<DateTime>)
    ensures r.Some? <==> unixDuration <= MAX_UNIX_DURATION
    ensures r.Some? ==> IsDateTime(r.value) && r.value.unixDuration == unixDuration
    ensures forall t: DateTime :: IsDateTime(t) && t.unixDuration == unixDuration ==> r == Some(t)
  {
    hide DaysBeforeYear, DaysBeforeMonth, MonthDays, FromYmdHms, IsMarchDay;
    forall t: DateTime | IsDateTime(t)
      ensures t.unixDuration <= MAX_UNIX_DURATION
    {
      RangeOfYears(t.year, t.month, t.day, t.hour, t.minutes, t.seconds);
    }
    if unixDuration > MAX_UNIX_DURATION {
      return None;
    }
    var days := unixDuration / 86400;
    var secsOfDay := unixDuration % 86400;
    var m := SplitCycles(days);
    var mon, rest := SplitMonth(m.day);
    CalendarDay(m, days, mon, rest);
    var mday := rest + 1;
    var year := m.year;
    if mon + 2 > 12 {
      year := year + 1;
      mon := mon - 10;
    } else {
      mon := mon + 2;
    }
    var second := secsOfDay % 60;
    var minsOfDay := secsOfDay / 60;
    var minute := minsOfDay % 60;
    var hour := minsOfDay / 60;
    RangeOfYears(year, mon, mday, hour, minute, second);
    FromYmdHmsIsExact(year, mon, mday, hour, minute, second);
    r := FromYmdHms(year, mon, mday, hour, minute, second);
    forall t: DateTime | IsDateTime(t) && t.unixDuration == unixDuration
      ensures r == Some(t)
    {
      OrderIsDuration(t, r.value);
    }
  }
}
