/**
  Calendar times as the CA handles them: the `--enddate` value handed to easy-rsa, its reading
  under section 4.1.2.5 of RFC 5280 (UTCTime, section 4.1.2.5.1, and GeneralizedTime, section
  4.1.2.5.2), and the count of seconds since the Unix epoch that PHP compares DateTime objects by.
  All times are in UTC.
 */
module CertTime {
  import opened Wrappers

  /** A broken-down calendar time, field by field as PHP's DateTime formats it. */
  datatype DateTime = DateTime(year: nat, month: nat, day: nat, hour: nat, minute: nat, second: nat)

  predicate IsLeapYear(y: nat) {
    y % 4 == 0 && (y % 100 != 0 || y % 400 == 0)
  }

  function DaysInMonth(y: nat, m: nat): nat {
    if m == 2 then (if IsLeapYear(y) then 29 else 28)
    else if m == 4 || m == 6 || m == 9 || m == 11 then 30
    else 31
  }

  /** A real calendar time with a year of at most four digits. */
  predicate ValidDateTime(d: DateTime) {
    && d.year <= 9999
    && 1 <= d.month <= 12
    && 1 <= d.day <= DaysInMonth(d.year, d.month)
    && d.hour < 24 && d.minute < 60 && d.second < 60
  }

  // ---------------------------------------------------------------------------
  // Decimal digits
  // ---------------------------------------------------------------------------

  predicate IsDigit(c: char) {
    '0' <= c <= '9'
  }

  predicate AllDigits(s: string) {
    forall k :: 0 <= k < |s| ==> IsDigit(s[k])
  }

  function DigitChar(n: nat): (c: char)
    requires n < 10
    ensures IsDigit(c) && c as int - '0' as int == n
  {
    ('0' as int + n) as char
  }

  /** The value of a decimal digit; other characters, which DecodeTime rejects, count as zero. */
  function DigitValue(c: char): (v: nat)
    ensures v < 10
    ensures IsDigit(c) ==> v == c as int - '0' as int
  {
    if IsDigit(c) then c as int - '0' as int else 0
  }

  /** The decimal number a string of digits denotes, read left to right. */
  function Value(s: string): (v: nat)
    ensures |s| <= 1 ==> v < 10
    ensures |s| <= 2 ==> v < 100
  {
    if s == [] then 0 else Value(s[..|s| - 1]) * 10 + DigitValue(s[|s| - 1])
  }

  /** Appending two digits multiplies the value read so far by one hundred. */
  lemma ValueAppendTwo(a: string, b: string)
    requires |b| == 2
    ensures Value(a + b) == Value(a) * 100 + Value(b)
  {
    var ab := a + b;
    assert ab[..|ab| - 1] == a + b[..1];
    assert (a + b[..1])[..|a|] == a;
    assert b[..1][..0] == [];
  }

  /** `n` zero-padded to two digits, as PHP's `m`, `d`, `H`, `i`, `s` and `y` formats write it. */
  function Pad2(n: nat): (r: string)
    requires n < 100
    ensures |r| == 2 && AllDigits(r) && Value(r) == n
  {
    var r := [DigitChar(n / 10), DigitChar(n % 10)];
    assert r[..1] == [r[0]] && [r[0]][..0] == [];
    assert Value([r[0]]) == n / 10;
    r
  }

  /** `n` zero-padded to four digits. */
  function Pad4(n: nat): (r: string)
    requires n < 10000
    ensures |r| == 4 && AllDigits(r) && Value(r) == n
  {
    ValueAppendTwo(Pad2(n / 100), Pad2(n % 100));
    Pad2(n / 100) + Pad2(n % 100)
  }

  // ---------------------------------------------------------------------------
  // The enddate argument and its reading
  // ---------------------------------------------------------------------------

  /** The century RFC 5280 assigns to a two-digit UTCTime year: 50..99 are 19YY, 00..49 are 20YY. */
  function UtcTimeYear(yy: nat): (y: nat)
    requires yy < 100
    ensures 1950 <= y <= 2049 && y % 100 == yy
  {
    if yy >= 50 then 1900 + yy else 2000 + yy
  }

  /**
    The calendar time a validity string denotes: 13 characters `YYMMDDHHMMSSZ` are a UTCTime,
    15 characters `YYYYMMDDHHMMSSZ` a GeneralizedTime; anything else is not a time.
   */
  function DecodeTime(s: string): (r: Option<DateTime>)
    ensures r.Some? ==> |s| == 13 || |s| == 15
  {
    if |s| == 13 && s[12] == 'Z' && AllDigits(s[..12]) then
      Some(DateTime(UtcTimeYear(Value(s[0..2])), Value(s[2..4]), Value(s[4..6]),
                    Value(s[6..8]), Value(s[8..10]), Value(s[10..12])))
    else if |s| == 15 && s[14] == 'Z' && AllDigits(s[..14]) then
      Some(DateTime(Value(s[0..4]), Value(s[4..6]), Value(s[6..8]),
                    Value(s[8..10]), Value(s[10..12]), Value(s[12..14])))
    else None
  }

  /**
    `$expiresAt->format('ymdHis\Z')`: two-digit year, then zero-padded month, day, hour,
    minute and second, then `Z`.
   */
  function FormatEndDate(d: DateTime): (r: string)
    requires ValidDateTime(d)
    ensures |r| == 13 && r[12] == 'Z' && AllDigits(r[..12])
  {
    Pad2(d.year % 100) + Pad2(d.month) + Pad2(d.day) + Pad2(d.hour) + Pad2(d.minute) + Pad2(d.second) + "Z"
  }

  /** Six two-digit fields followed by `Z` read back as those fields. */
  lemma SlicesOfFields(p: seq<string>, s: string)
    requires |p| == 7 && forall k :: 0 <= k < 7 ==> |p[k]| == 2
    requires s == p[0] + p[1] + p[2] + p[3] + p[4] + p[5] + "Z"
    ensures |s| == 13 && s[0..2] == p[0] && s[2..4] == p[1] && s[4..6] == p[2]
    ensures s[6..8] == p[3] && s[8..10] == p[4] && s[10..12] == p[5] && s[12] == 'Z'
  {
  }

  /** A four-digit year, five two-digit fields and `Z` read back as those fields. */
  lemma SlicesOfGeneralized(y: string, p: seq<string>, s: string)
    requires |y| == 4 && AllDigits(y)
    requires |p| == 5 && forall k :: 0 <= k < 5 ==> |p[k]| == 2 && AllDigits(p[k])
    requires s == y + p[0] + p[1] + p[2] + p[3] + p[4] + "Z"
    ensures |s| == 15 && s[14] == 'Z' && AllDigits(s[..14])
    ensures s[0..4] == y && s[4..6] == p[0] && s[6..8] == p[1]
    ensures s[8..10] == p[2] && s[10..12] == p[3] && s[12..14] == p[4]
  {
    assert s[..14] == y + p[0] + p[1] + p[2] + p[3] + p[4];
  }

  /**
    The enddate the source writes is read under RFC 5280 as the same month, day and time of day
    with the year replaced by the UTCTime reading of its last two digits.
   */
  lemma FormatEndDateDecodes(d: DateTime)
    requires ValidDateTime(d)
    ensures DecodeTime(FormatEndDate(d)) == Some(d.(year := UtcTimeYear(d.year % 100)))
  {
    var s := FormatEndDate(d);
    var p := [Pad2(d.year % 100), Pad2(d.month), Pad2(d.day), Pad2(d.hour), Pad2(d.minute), Pad2(d.second), "xx"];
    SlicesOfFields(p, s);
  }

  /**
    As-written consequence: from 2050 on, the enddate the source passes denotes a year one or
    more centuries earlier than the requested expiry.
   */
  lemma FormatEndDateLosesCentury(d: DateTime)
    requires ValidDateTime(d) && d.year >= 2050
    ensures DecodeTime(FormatEndDate(d)).Some?
    ensures DecodeTime(FormatEndDate(d)).value.year <= d.year - 100
  {
    FormatEndDateDecodes(d);
  }

  /** The GeneralizedTime form `YYYYMMDDHHMMSSZ` of a calendar time. */
  function GeneralizedTime(d: DateTime): (r: string)
    requires ValidDateTime(d)
    ensures |r| == 15 && r[14] == 'Z' && AllDigits(r[..14])
  {
    var p := [Pad2(d.month), Pad2(d.day), Pad2(d.hour), Pad2(d.minute), Pad2(d.second)];
    SlicesOfGeneralized(Pad4(d.year), p, Pad4(d.year) + Pad2(d.month) + Pad2(d.day) + Pad2(d.hour) + Pad2(d.minute) + Pad2(d.second) + "Z");
    Pad4(d.year) + Pad2(d.month) + Pad2(d.day) + Pad2(d.hour) + Pad2(d.minute) + Pad2(d.second) + "Z"
  }

  /** The GeneralizedTime form reads back as the time it was written from. */
  lemma GeneralizedTimeDecodes(d: DateTime)
    requires ValidDateTime(d)
    ensures DecodeTime(GeneralizedTime(d)) == Some(d)
  {
    var p := [Pad2(d.month), Pad2(d.day), Pad2(d.hour), Pad2(d.minute), Pad2(d.second)];
    SlicesOfGeneralized(Pad4(d.year), p, GeneralizedTime(d));
  }

  /** Within 1950..2049 the UTCTime reading of a year's last two digits is the year itself. */
  lemma UtcTimeYearInWindow(y: nat)
    requires 1950 <= y <= 2049
    ensures UtcTimeYear(y % 100) == y
  {
    if y < 2000 { assert y % 100 == y - 1900; } else { assert y % 100 == y - 2000; }
  }

  /**
    The enddate the source writes reads back as exactly the requested expiry if and only if
    the expiry year lies in 1950..2049.
   */
  lemma FormatEndDateExact(d: DateTime)
    requires ValidDateTime(d)
    ensures DecodeTime(FormatEndDate(d)) == Some(d) <==> 1950 <= d.year <= 2049
  {
    FormatEndDateDecodes(d);
    if 1950 <= d.year <= 2049 {
      UtcTimeYearInWindow(d.year);
    }
  }

  /**
    The enddate corrected to follow RFC 5280: UTCTime for the years 1950 through 2049, where it
    is exactly what the source writes, and GeneralizedTime otherwise.
   */
  function EndDate(d: DateTime): (r: string)
    requires ValidDateTime(d)
    ensures 1950 <= d.year <= 2049 ==> r == FormatEndDate(d)
    ensures |r| == 13 <==> 1950 <= d.year <= 2049
  {
    if 1950 <= d.year <= 2049 then FormatEndDate(d) else GeneralizedTime(d)
  }

  /** Round trip: the corrected enddate always denotes exactly the requested expiry. */
  lemma EndDateDecodes(d: DateTime)
    requires ValidDateTime(d)
    ensures DecodeTime(EndDate(d)) == Some(d)
  {
    if 1950 <= d.year <= 2049 {
      FormatEndDateDecodes(d);
      UtcTimeYearInWindow(d.year);
    } else {
      GeneralizedTimeDecodes(d);
    }
  }

  // ---------------------------------------------------------------------------
  // Seconds since the epoch
  // ---------------------------------------------------------------------------

  /** Days from 1970-01-01 to the given proleptic Gregorian date (March-based era arithmetic). */
  function DaysFromCivil(year: nat, month: nat, day: nat): int {
    var y: int := if month <= 2 then year - 1 else year;
    var era := y / 400;                      // floor division: Dafny's `/` is Euclidean
    var yoe := y - era * 400;                // year of era, 0..399
    var mp := (month + 9) % 12;              // March is 0, February is 11
    var doy := (153 * mp + 2) / 5 + day - 1; // day of the March-based year
    var doe := yoe * 365 + yoe / 4 - yoe / 100 + doy;
    era * 146097 + doe - 719468
  }

  /** The Unix timestamp of a UTC calendar time, which PHP compares DateTime objects by. */
  function EpochSeconds(d: DateTime): int {
    DaysFromCivil(d.year, d.month, d.day) * 86400 + d.hour * 3600 + d.minute * 60 + d.second
  }

  // ---------------------------------------------------------------------------
  // Calendar order: EpochSeconds against a day count taken from the calendar's rules
  // ---------------------------------------------------------------------------

  function DaysInYear(y: nat): nat {
    if IsLeapYear(y) then 366 else 365
  }

  /** Days in the years 0 through y - 1: 365 for each, plus one for each leap year among them. */
  function DaysBeforeYear(y: nat): int {
    365 * y + (y + 3) / 4 - (y + 99) / 100 + (y + 399) / 400
  }

  /** Days in the months of year `y` before month `m`. */
  function DaysBeforeMonth(y: nat, m: nat): nat
    requires 1 <= m <= 12
  {
    [0, 31, 59, 90, 120, 151, 181, 212, 243, 273, 304, 334][m - 1]
      + (if m > 2 && IsLeapYear(y) then 1 else 0)
  }

  /** The multiples of `n` in 0..y-1, against those in 0..y. */
  lemma Multiples4(y: nat)
    ensures (y + 3) / 4 == y / 4 + (if y % 4 == 0 then 0 else 1)
  {
  }
  lemma Multiples100(y: nat)
    ensures (y + 99) / 100 == y / 100 + (if y % 100 == 0 then 0 else 1)
  {
  }
  lemma Multiples400(y: nat)
    ensures (y + 399) / 400 == y / 400 + (if y % 400 == 0 then 0 else 1)
  {
  }

  /** The leap-year rule as a count: a multiple of 4, less one for a century, plus one for a fourth century. */
  lemma LeapIndicator(y: nat)
    ensures (if IsLeapYear(y) then 1 else 0)
         == (if y % 4 == 0 then 1 else 0) - (if y % 100 == 0 then 1 else 0) + (if y % 400 == 0 then 1 else 0)
  {
    if y % 400 == 0 {
      assert y % 100 == 0 && y % 4 == 0;
    } else if y % 100 == 0 {
      assert y % 4 == 0;
    }
  }

  /** Each year adds its own length to the count of days before it. */
  lemma DaysBeforeYearStep(y: nat)
    ensures DaysBeforeYear(y + 1) == DaysBeforeYear(y) + DaysInYear(y)
  {
    Multiples4(y);
    Multiples100(y);
    Multiples400(y);
    Multiples4(y + 1);
    Multiples100(y + 1);
    Multiples400(y + 1);
    LeapIndicator(y);
  }

  lemma DaysBeforeYearIncreasing(a: nat, b: nat)
    requires a < b
    ensures DaysBeforeYear(a) + DaysInYear(a) <= DaysBeforeYear(b)
    decreases b - a
  {
    DaysBeforeYearStep(a);
    if a + 1 < b {
      DaysBeforeYearIncreasing(a + 1, b);
    }
  }

  /** The month table agrees with DaysInMonth: each month adds its own length, and December ends the year. */
  lemma DaysBeforeMonthStep(y: nat, m: nat)
    requires 1 <= m <= 12
    ensures m < 12 ==> DaysBeforeMonth(y, m + 1) == DaysBeforeMonth(y, m) + DaysInMonth(y, m)
    ensures m == 12 ==> DaysBeforeMonth(y, m) + DaysInMonth(y, m) == DaysInYear(y)
  {
  }

  lemma DaysBeforeMonthIncreasing(y: nat, m: nat, n: nat)
    requires 1 <= m < n <= 12
    ensures DaysBeforeMonth(y, m) + DaysInMonth(y, m) <= DaysBeforeMonth(y, n)
  {
    DaysBeforeMonthStep(y, m);
  }

  /** The days of whole 400-year eras plus those of the years before `z` in its era, counted from March of year 0. */
  lemma EraDays(z: int)
    ensures var era := z / 400; var yoe := z - era * 400;
      era * 146097 + yoe * 365 + yoe / 4 - yoe / 100 == 365 * z + z / 4 - z / 100 + z / 400
  {
    var era := z / 400;
    var yoe := z - era * 400;
    assert 0 <= yoe < 400;
    assert z / 4 == era * 100 + yoe / 4;
    assert z / 100 == era * 4 + yoe / 100;
  }

  /** Days from March 1 to the first of month `m`, in the March-based year. */
  lemma MarchOffset(m: nat)
    requires 1 <= m <= 12
    ensures (153 * ((m + 9) % 12) + 2) / 5
         == [0, 31, 59, 90, 120, 151, 181, 212, 243, 273, 304, 334][m - 1] + (if m > 2 then -59 else 306)
  {
  }

  /**
    DaysFromCivil is the calendar's own day count: the days of all earlier years, of the earlier
    months of the year and of the earlier days of the month, less those before 1970.
   */
  lemma DaysFromCivilCounts(y: nat, m: nat, d: nat)
    requires 1 <= m <= 12
    ensures DaysFromCivil(y, m, d) == DaysBeforeYear(y) + DaysBeforeMonth(y, m) + d - 1 - DaysBeforeYear(1970)
  {
    var leap := if IsLeapYear(y) then 1 else 0;
    var z: int := if m <= 2 then y - 1 else y;
    var days := 365 * z + z / 4 - z / 100 + z / 400;
    var offset := (153 * ((m + 9) % 12) + 2) / 5;
    MarchOffset(m);
    EraDays(z);
    assert DaysFromCivil(y, m, d) == days + offset + d - 1 - 719468;
    if m <= 2 {
      JanuaryFebruaryYears(y);
      assert offset == DaysBeforeMonth(y, m) + 306;
    } else {
      MarchOnYears(y);
      assert offset == DaysBeforeMonth(y, m) - 59 - leap;
    }
  }

  /** January and February belong to the March-based year before: its days and a full 366-day step. */
  lemma JanuaryFebruaryYears(y: nat)
    ensures 365 * (y - 1) + (y - 1) / 4 - (y - 1) / 100 + (y - 1) / 400 + 366 == DaysBeforeYear(y)
  {
    assert (y + 3) / 4 == (y - 1) / 4 + 1;
    assert (y + 99) / 100 == (y - 1) / 100 + 1;
    assert (y + 399) / 400 == (y - 1) / 400 + 1;
  }

  /** From March on, the March-based year is the calendar year, whose leap day lies behind. */
  lemma MarchOnYears(y: nat)
    ensures 365 * y + y / 4 - y / 100 + y / 400 + 1 - (if IsLeapYear(y) then 1 else 0) == DaysBeforeYear(y)
  {
    Multiples4(y);
    Multiples100(y);
    Multiples400(y);
    LeapIndicator(y);
  }

  /** Calendar order: year first, then month, day, hour, minute and second. */
  predicate Earlier(a: DateTime, b: DateTime) {
    if a.year != b.year then a.year < b.year
    else if a.month != b.month then a.month < b.month
    else if a.day != b.day then a.day < b.day
    else if a.hour != b.hour then a.hour < b.hour
    else if a.minute != b.minute then a.minute < b.minute
    else a.second < b.second
  }

  lemma DayOrder(a: DateTime, b: DateTime)
    requires ValidDateTime(a) && ValidDateTime(b)
    requires (a.year, a.month, a.day) != (b.year, b.month, b.day) && Earlier(a, b)
    ensures DaysFromCivil(a.year, a.month, a.day) < DaysFromCivil(b.year, b.month, b.day)
  {
    DaysFromCivilCounts(a.year, a.month, a.day);
    DaysFromCivilCounts(b.year, b.month, b.day);
    if a.year < b.year {
      DaysBeforeMonthIncreasingOrEnd(a.year, a.month);
      DaysBeforeYearIncreasing(a.year, b.year);
    } else if a.month < b.month {
      DaysBeforeMonthIncreasing(a.year, a.month, b.month);
    }
  }

  /** A date lies within its year. */
  lemma DaysBeforeMonthIncreasingOrEnd(y: nat, m: nat)
    requires 1 <= m <= 12
    ensures DaysBeforeMonth(y, m) + DaysInMonth(y, m) <= DaysInYear(y)
  {
    if m < 12 {
      DaysBeforeMonthIncreasing(y, m, 12);
    }
    DaysBeforeMonthStep(y, 12);
  }

  lemma EarlierIsSooner(a: DateTime, b: DateTime)
    requires ValidDateTime(a) && ValidDateTime(b) && Earlier(a, b)
    ensures EpochSeconds(a) < EpochSeconds(b)
  {
    if (a.year, a.month, a.day) != (b.year, b.month, b.day) {
      DayOrder(a, b);
    }
  }

  /**
    EpochSeconds orders valid calendar times exactly as the calendar does, so comparing the
    timestamps, as PHP compares DateTime objects, compares the times themselves.
   */
  lemma EpochSecondsOrder(a: DateTime, b: DateTime)
    requires ValidDateTime(a) && ValidDateTime(b)
    ensures EpochSeconds(a) < EpochSeconds(b) <==> Earlier(a, b)
    ensures EpochSeconds(a) == EpochSeconds(b) <==> a == b
  {
    if Earlier(a, b) {
      EarlierIsSooner(a, b);
    } else if a != b {
      EarlierIsSooner(b, a);
    }
  }

  /** The Unix epoch is second zero. */
  lemma EpochSecondsAtEpoch()
    ensures EpochSeconds(DateTime(1970, 1, 1, 0, 0, 0)) == 0
  {
  }

  /** The "now" of the counterexample below: 2026-10-15T12:00:00Z. */
  lemma EpochSecondsOfNow()
    ensures EpochSeconds(DateTime(2026, 10, 15, 12, 0, 0)) == 1792065600
  {
  }

  /** The first instant RFC 5280 requires to be written as GeneralizedTime. */
  lemma EpochSecondsOf2050()
    ensures EpochSeconds(DateTime(2050, 1, 1, 0, 0, 0)) == 2524608000
  {
  }

  /** The instant `500101000000Z` denotes under RFC 5280. */
  lemma EpochSecondsOf1950()
    ensures EpochSeconds(DateTime(1950, 1, 1, 0, 0, 0)) == -631152000
  {
  }

  /**
    The finding made concrete: 2050-01-01 lies after 2026-10-15 and passes the client expiry
    guard, but the enddate written for it reads as 1950-01-01, before that "now"; the corrected
    enddate reads as the requested expiry.
   */
  lemma EndDate2050Counterexample()
    ensures ValidDateTime(DateTime(2050, 1, 1, 0, 0, 0))
    ensures EpochSeconds(DateTime(2026, 10, 15, 12, 0, 0)) < EpochSeconds(DateTime(2050, 1, 1, 0, 0, 0))
    ensures DecodeTime(FormatEndDate(DateTime(2050, 1, 1, 0, 0, 0))) == Some(DateTime(1950, 1, 1, 0, 0, 0))
    ensures EpochSeconds(DateTime(1950, 1, 1, 0, 0, 0)) < EpochSeconds(DateTime(2026, 10, 15, 12, 0, 0))
    ensures DecodeTime(EndDate(DateTime(2050, 1, 1, 0, 0, 0))) == Some(DateTime(2050, 1, 1, 0, 0, 0))
  {
    var expiresAt := DateTime(2050, 1, 1, 0, 0, 0);
    EpochSecondsOfNow();
    EpochSecondsOf2050();
    EpochSecondsOf1950();
    FormatEndDateDecodes(expiresAt);
    EndDateDecodes(expiresAt);
  }
}
