// Timestamps of directory entries: time.c.

/** The calendar of exFAT: years from 1980, every fourth a leap year. */
module Calendar {
  const YEARS: nat := 128
  const DAYS: nat := 46752

  datatype Date = Date(year: nat, month: nat, day: nat)

  predicate IsLeap(year: nat) {
    (1980 + year) % 4 == 0
  }

  function MonthLength(year: nat, month: nat): nat
    requires 1 <= month <= 12
  {
    if month == 2 then if IsLeap(year) then 29 else 28
    else if month == 4 || month == 6 || month == 9 || month == 11 then 30
    else 31
  }

  predicate IsDate(d: Date) {
    1 <= d.month <= 12 && 1 <= d.day <= MonthLength(d.year, d.month)
  }

  function NextDay(d: Date): (next: Date)
    requires IsDate(d)
    ensures IsDate(next)
  {
    if d.day < MonthLength(d.year, d.month) then Date(d.year, d.month, d.day + 1)
    else if d.month < 12 then Date(d.year, d.month + 1, 1)
    else Date(d.year + 1, 1, 1)
  }

  /** The date so many days after 1 January 1980, counted off day by day. */
  function DateAfter(days: nat): (d: Date)
    ensures IsDate(d)
  {
    if days == 0 then Date(0, 1, 1) else NextDay(DateAfter(days - 1))
  }

  /** LEAP_YEARS */
  function LeapYears(year: nat): nat {
    (1980 + year - 1) / 4 - (1980 - 1) / 4
  }

  /** days_in_year */
  const DAYS_IN_YEAR: seq<nat> := [0, 0, 31, 59, 90, 120, 151, 181, 212, 243, 273, 304, 334]

  /** The days before a date, as the decoder adds them up. */
  function DayNumber(d: Date): nat
    requires 1 <= d.month <= 12 && d.day >= 1
  {
    365 * d.year + LeapYears(d.year) + DAYS_IN_YEAR[d.month] + (if IsLeap(d.year) && d.month > 2 then 1 else 0) + d.day - 1
  }

  lemma NextDayNumber(d: Date)
    requires IsDate(d)
    ensures DayNumber(NextDay(d)) == DayNumber(d) + 1
  {
  }

  lemma {:induction false} DayNumberOfDate(days: nat)
    ensures DayNumber(DateAfter(days)) == days
  {
    if days > 0 {
      DayNumberOfDate(days - 1);
      NextDayNumber(DateAfter(days - 1));
    }
  }

  predicate Earlier(a: Date, b: Date) {
    a.year < b.year || (a.year == b.year && (a.month < b.month || (a.month == b.month && a.day < b.day)))
  }

  function YearLength(year: nat): nat {
    if IsLeap(year) then 366 else 365
  }

  lemma NextYear(year: nat)
    ensures 365 * (year + 1) + LeapYears(year + 1) == 365 * year + LeapYears(year) + YearLength(year)
  {
    NextQuarter(1980 + year - 1);
  }

  lemma NextQuarter(a: nat)
    ensures (a + 1) / 4 == a / 4 + if (a + 1) % 4 == 0 then 1 else 0
  {
  }

  lemma {:induction false} YearsGrow(a: nat, b: nat)
    requires a < b
    ensures 365 * a + LeapYears(a) + YearLength(a) <= 365 * b + LeapYears(b)
  {
    hide LeapYears, IsLeap;
    NextYear(b - 1);
    if a < b - 1 {
      YearsGrow(a, b - 1);
    }
  }

  /** One year in four is a leap year. */
  lemma LeapYearsBounds(year: nat)
    ensures year <= 4 * LeapYears(year) <= year + 3
  {
  }

  lemma MonthsGrow(year: nat, a: nat, b: nat)
    requires 1 <= a < b <= 12
    ensures DayNumber(Date(year, a, MonthLength(year, a))) < DayNumber(Date(year, b, 1))
  {
  }

  lemma EarlierIsLess(a: Date, b: Date)
    requires IsDate(a) && IsDate(b) && Earlier(a, b)
    ensures DayNumber(a) < DayNumber(b)
  {
    if a.year < b.year {
      YearsGrow(a.year, b.year);
      if a.month < 12 {
        MonthsGrow(a.year, a.month, 12);
      }
    } else if a.month < b.month {
      MonthsGrow(a.year, a.month, b.month);
    }
  }

  /** A date is determined by its number. */
  lemma DateOfNumber(d: Date)
    requires IsDate(d)
    ensures d == DateAfter(DayNumber(d))
  {
    var other := DateAfter(DayNumber(d));
    DayNumberOfDate(DayNumber(d));
    if Earlier(d, other) {
      EarlierIsLess(d, other);
    } else if Earlier(other, d) {
      EarlierIsLess(other, d);
    }
  }

  lemma LeapYearsOf(year: nat, k: nat)
    requires 4 * k < 1980 + year <= 4 * k + 4
    ensures LeapYears(year) == k - 494
  {
  }

  lemma LeapYearsWrap(r: nat, q: nat)
    ensures LeapYears(r + YEARS * q) == LeapYears(r) + 32 * q
  {
    hide LeapYears;
    var k := (1980 + r - 1) / 4;
    LeapYearsOf(r, k);
    LeapYearsOf(r + YEARS * q, k + 32 * q);
  }

  lemma IsLeapWraps(r: nat, q: nat)
    ensures IsLeap(r + YEARS * q) == IsLeap(r)
  {
    hide IsLeap;
    var k, e := (1980 + r) / 4, (1980 + r) % 4;
    IsLeapOf(r, k, e);
    IsLeapOf(r + YEARS * q, k + 32 * q, e);
  }

  lemma IsLeapOf(year: nat, k: nat, e: nat)
    requires 1980 + year == 4 * k + e && e < 4
    ensures IsLeap(year) <==> e == 0
  {
  }

  lemma DaysWrap(d: Date, q: nat)
    requires IsDate(d)
    ensures DayNumber(d.(year := d.year + YEARS * q)) == DayNumber(d) + DAYS * q
  {
    hide LeapYears, IsLeap;
    LeapYearsWrap(d.year, q);
    IsLeapWraps(d.year, q);
  }

  lemma DaysOfSpan(d: Date)
    requires IsDate(d) && d.year < YEARS
    ensures DayNumber(d) < DAYS
  {
    assert DayNumber(Date(YEARS, 1, 1)) == DAYS;
    hide DayNumber;
    EarlierIsLess(d, Date(YEARS, 1, 1));
  }

  lemma YearParts(year: nat)
    ensures year == year % YEARS + YEARS * (year / YEARS) && IsLeap(year % YEARS) == IsLeap(year)
  {
    hide IsLeap;
    IsLeapWraps(year % YEARS, year / YEARS);
  }

  /** The calendar repeats itself every 128 years. */
  lemma YearWraps(d: Date)
    requires IsDate(d)
    ensures DayNumber(d.(year := d.year % YEARS)) == DayNumber(d) % DAYS
  {
    hide DayNumber, IsLeap;
    YearParts(d.year);
    var wrapped, q := d.(year := d.year % YEARS), d.year / YEARS;
    DaysWrap(wrapped, q);
    DaysOfSpan(wrapped);
    Remainder(DayNumber(wrapped), q);
  }

  lemma Remainder(r: nat, q: nat)
    requires r < DAYS
    ensures (r + DAYS * q) % DAYS == r
  {
  }
}

module Timestamps {
  import opened Basics
  import opened Calendar

  const SEC_IN_DAY := 86400
  const SEC_IN_HOUR := 3600
  const SEC_IN_MIN := 60
  /** The seconds of the 128 years that a stamp tells apart. */
  const SPAN := DAYS * SEC_IN_DAY
  const EPOCH_DIFF_SEC := (10 * 365 + 10 / 4) * SEC_IN_DAY

  /** What a directory entry holds of a timestamp. */
  datatype Stamp = Stamp(date: u16, time: u16, centisec: byte, tzoffset: byte)

  /** The 7 low bits of a byte as a signed number: (int8_t) (x << 1) / 2. */
  function Signed7(x: nat): int {
    if x % 128 < 64 then x % 128 else x % 128 - 128
  }

  /** Division as in C, towards zero. */
  function Quotient(a: int, b: nat): int
    requires b > 0
  {
    if a >= 0 then a / b else -(-a / b)
  }

  predicate IsAccepted(s: Stamp) {
    var day, month := s.date % 32, s.date / 32 % 16;
    && day != 0 && month != 0 && month <= 12
    && s.time / 2048 <= 23 && s.time / 32 % 64 <= 59 && s.time % 32 <= 29 && s.centisec <= 199
  }

  /** exfat_exfat2unix, in a zone so many seconds west of UTC. */
  function ToUnix(s: Stamp, timezone: int): int {
    if !IsAccepted(s) then 0
    else
      var date := Date(s.date / 512, s.date / 32 % 16, s.date % 32);
      var clock := s.time / 2048 * SEC_IN_HOUR + s.time / 32 % 64 * SEC_IN_MIN + s.time % 32 * 2 + s.centisec / 100;
      EPOCH_DIFF_SEC + DayNumber(date) * SEC_IN_DAY + clock
      + if s.tzoffset >= 0x80 then -Signed7(s.tzoffset) * 900 else timezone
  }

  /** The first instant that can be stored. */
  function Shift(timezone: int): int {
    EPOCH_DIFF_SEC + timezone
  }

  /** The search for the month, with the month's days taken off. */
  method FindMonth(year: nat, dayOfYear: nat) returns (month: nat, day: nat)
    requires dayOfYear < YearLength(year)
    ensures IsDate(Date(year, month, day))
    ensures DayNumber(Date(year, month, day)) == 365 * year + LeapYears(year) + dayOfYear
  {
    month := 1;
    while true
      invariant 1 <= month <= 12
      invariant DAYS_IN_YEAR[month] + (if IsLeap(year) && month >= 3 then 1 else 0) <= dayOfYear
      decreases 12 - month
    {
      var leapDay := if IsLeap(year) && month == 2 then 1 else 0;
      var leapSub := if IsLeap(year) && month >= 3 then 1 else 0;
      if month == 12 || dayOfYear - leapSub < DAYS_IN_YEAR[month + 1] + leapDay {
        day := dayOfYear - (DAYS_IN_YEAR[month] + leapSub) + 1;
        return;
      }
      month := month + 1;
    }
  }

  /** The year, from a formula for four-year cycles. */
  function YearOf(days: nat): (year: nat)
    ensures 365 * year + LeapYears(year) <= days < 365 * year + LeapYears(year) + YearLength(year)
  {
    YearFormula(days, 4 * days / (4 * 365 + 1));
    4 * days / (4 * 365 + 1)
  }

  lemma YearFormula(days: nat, year: nat)
    requires 1461 * year <= 4 * days < 1461 * (year + 1)
    ensures 365 * year + LeapYears(year) <= days < 365 * year + LeapYears(year) + YearLength(year)
  {
    LeapYearsBounds(year);
    LeapYearsBounds(year + 1);
    NextYear(year);
    hide LeapYears, YearLength;
  }

  lemma Shifted(low: nat, size: nat, high: nat)
    requires low < size && (size == 16 || size == 32 || size == 64)
    ensures (low + size * high) / size == high && (low + size * high) % size == low
  {
  }

  /** Seven bits hold the year: its higher bits are shifted out. */
  function PackDate(d: Date): (date: u16)
    requires IsDate(d)
    ensures Date(date / 512, date / 32 % 16, date % 32) == d.(year := d.year % YEARS)
  {
    var year := d.year % YEARS;
    Shifted(d.day, 32, d.month + 16 * year);
    Shifted(d.month, 16, year);
    d.day + 32 * (d.month + 16 * year)
  }

  function PackTime(hour: nat, min: nat, twosec: nat): (time: u16)
    requires hour < 24 && min < 60 && twosec < 30
    ensures time / 2048 == hour && time / 32 % 64 == min && time % 32 == twosec
  {
    Shifted(twosec, 32, min + 64 * hour);
    Shifted(min, 64, hour);
    twosec + 32 * (min + 64 * hour)
  }

  /** (uint8_t) (-timezone / 60 / 15) | 0x80 */
  function PackZone(timezone: int): (tzoffset: byte)
    ensures tzoffset >= 0x80
  {
    0x80 + Quotient(Quotient(-timezone, 60), 15) % 128
  }

  lemma ClockParts(local: nat)
    ensures local == local / SEC_IN_DAY * SEC_IN_DAY + local % SEC_IN_DAY / SEC_IN_HOUR * SEC_IN_HOUR
      + local % SEC_IN_HOUR / SEC_IN_MIN * SEC_IN_MIN + local % SEC_IN_MIN / 2 * 2 + local % 2 * 100 / 100
  {
    assert local % SEC_IN_HOUR == local % SEC_IN_DAY % SEC_IN_HOUR;
    assert local % SEC_IN_MIN == local % SEC_IN_HOUR % SEC_IN_MIN;
    assert local % 2 == local % SEC_IN_MIN % 2;
  }

  /** Seconds since the epoch of exFAT in local time; earlier instants cannot be represented. */
  function Local(instant: int, timezone: int): nat {
    if instant < Shift(timezone) then 0 else instant - Shift(timezone)
  }

  /** The stamp of an instant, by the calendar. */
  function StampOf(instant: int, timezone: int): (s: Stamp)
  {
    var local := Local(instant, timezone);
    Stamp(PackDate(DateAfter(local / SEC_IN_DAY)),
          PackTime(local % SEC_IN_DAY / SEC_IN_HOUR, local % SEC_IN_HOUR / SEC_IN_MIN, local % SEC_IN_MIN / 2),
          local % 2 * 100, PackZone(timezone))
  }

  /** The number of the year fits in its 16 bits. */
  predicate IsInWidth(instant: int, timezone: int) {
    Local(instant, timezone) < 0x1_0000 / 4 * 1461 * SEC_IN_DAY
  }

  /** exfat_unix2exfat: year formula and month search find the date that counting days finds. */
  method FromUnix(instant: int, timezone: int) returns (s: Stamp)
    requires IsInWidth(instant, timezone)
    ensures s == StampOf(instant, timezone)
  {
    hide DateAfter, DayNumber, PackDate, PackTime, PackZone;
    var local := Local(instant, timezone);
    var days := local / SEC_IN_DAY;
    var year := YearOf(days);
    var month, day := FindMonth(year, days - (365 * year + LeapYears(year)));
    DateOfNumber(Date(year, month, day));
    var hour, min, twosec := local % SEC_IN_DAY / SEC_IN_HOUR, local % SEC_IN_HOUR / SEC_IN_MIN, local % SEC_IN_MIN / 2;
    s := Stamp(PackDate(Date(year, month, day)), PackTime(hour, min, twosec), local % 2 * 100, PackZone(timezone));
  }

  lemma LocalWraps(local: nat)
    ensures local % SPAN == local / SEC_IN_DAY % DAYS * SEC_IN_DAY + local % SEC_IN_DAY
  {
    assert local == SEC_IN_DAY * (local / SEC_IN_DAY) + local % SEC_IN_DAY;
    assert local / SEC_IN_DAY == DAYS * (local / SEC_IN_DAY / DAYS) + local / SEC_IN_DAY % DAYS;
  }

  /** The decoder accepts every stamp, and reads back the local time, less the zone that the stamp holds and
      whole spans of 128 years. */
  lemma StampReadsBack(instant: int, timezone: int, zone: int)
    ensures var s := StampOf(instant, timezone);
      && IsAccepted(s)
      && ToUnix(s, zone) == EPOCH_DIFF_SEC + Local(instant, timezone) % SPAN - Signed7(PackZone(timezone)) * 900
  {
    hide DateAfter, DayNumber, PackDate, PackTime, PackZone;
    var local := Local(instant, timezone);
    DayNumberOfDate(local / SEC_IN_DAY);
    YearWraps(DateAfter(local / SEC_IN_DAY));
    ClockParts(local);
    LocalWraps(local);
  }

  /** A zone within 64 years of UTC. */
  predicate IsZone(timezone: int) {
    -SPAN / 2 < timezone < SPAN / 2
  }

  /** Whatever stamp is read, its year fits in 16 bits when it is stored again. */
  lemma StampInWidth(s: Stamp, timezone: int)
    requires IsZone(timezone)
    ensures IsInWidth(ToUnix(s, timezone), timezone)
  {
    if IsAccepted(s) {
      DaysOfStamp(s.date / 512, s.date / 32 % 16, s.date % 32);
      hide DayNumber;
    }
  }

  lemma DaysOfStamp(year: nat, month: nat, day: nat)
    requires year < YEARS && 1 <= month <= 12 && 1 <= day < 32
    ensures DayNumber(Date(year, month, day)) <= DAYS
  {
    LeapYearsBounds(year);
    hide LeapYears, IsLeap;
  }

  /** Whether a zone can be stored: a whole number of quarters of an hour, in 7 signed bits. */
  predicate IsStorable(timezone: int) {
    timezone % 900 == 0 && -64 <= -timezone / 900 <= 63
  }

  /** Exactly the storable zones come back from the byte that holds them. */
  lemma ZoneRoundTrip(timezone: int)
    ensures Signed7(PackZone(timezone)) * 900 == -timezone <==> IsStorable(timezone)
  {
    var q := Quotient(Quotient(-timezone, 60), 15);
    if timezone % 900 == 0 {
      assert q == -timezone / 900;
    }
  }

  /** A stored time reads back unchanged, in any zone, exactly if it lies before 2108 in local time and the zone
      it was stored in can be stored. */
  lemma RoundTrip(instant: int, timezone: int, zone: int)
    requires Local(instant, timezone) < SPAN || IsZone(timezone)
    ensures ToUnix(StampOf(instant, timezone), zone) == (if instant < Shift(timezone) then Shift(timezone) else instant)
      <==> Local(instant, timezone) < SPAN && IsStorable(timezone)
  {
    hide StampOf, PackZone, IsStorable, ToUnix, Signed7;
    StampReadsBack(instant, timezone, zone);
    ZoneRoundTrip(timezone);
    assert -64 <= Signed7(PackZone(timezone)) < 64 by { SevenBits(PackZone(timezone)); }
    SpanOrMore(Local(instant, timezone));
  }

  lemma SevenBits(x: nat)
    ensures -64 <= Signed7(x) < 64
  {
  }

  lemma SpanOrMore(local: nat)
    ensures if local < SPAN then local % SPAN == local else local % SPAN <= local - SPAN
  {
  }

  /** Without the centiseconds, as for access times, a stored time loses the odd second. */
  lemma EvenSeconds(instant: int, timezone: int, zone: int)
    ensures var s := StampOf(instant, timezone);
      && IsAccepted(s.(centisec := 0))
      && ToUnix(s.(centisec := 0), zone) == ToUnix(s, zone) - Local(instant, timezone) % 2
  {
  }
}
