/**
 Calendar arithmetic of the clock: month lengths, the BCD days-in-month
 lookup used to validate the edited day, and the day-of-week computation
 anchored at 1 January 2000 (a Saturday). Years are counted from 2000.
 */
module Calendar {
  import opened Bits
  import opened Bcd

  const SUNDAY := 0
  const SATURDAY := 6

  /** Days per month of the Gregorian calendar, as a plain table */
  function GregorianDays(m: int, leap: bool): nat
    requires 1 <= m <= 12
  {
    [31, if leap then 29 else 28, 31, 30, 31, 30, 31, 31, 30, 31, 30, 31][m - 1]
  }

  /**
   `month_length(m, leap)`: the "knuckle" rule, long months are the odd ones
   before August and the even ones from August on.
   */
  function MonthLength(m: Byte, leap: bool): (r: nat)
    ensures 28 <= r <= 31
    ensures 1 <= m <= 12 ==> r == GregorianDays(m, leap)
    ensures m == 0 || m > 12 ==> r == 30 || r == 31
  {
    var knuckle := if m < 8 then m % 2 == 1 else m % 2 == 0;
    if knuckle then 31 else if m != 2 then 30 else if leap then 29 else 28
  }

  /** The 4-year leap rule of `days_in_month_bcd`, on the binary year */
  predicate IsLeap(y: nat) {
    y % 4 == 0
  }

  /**
   `days_in_month_bcd(year, month)`: the same knuckle rule applied to the
   decoded month, answered in BCD.
   */
  function DaysInMonthBcd(year: Byte, month: Byte): (r: Byte)
    ensures r == 0x28 || r == 0x29 || r == 0x30 || r == 0x31
    ensures r == 0x29 <==> FromBcd(month) == 2 && IsLeap(FromBcd(year))
    ensures r == 0x28 <==> FromBcd(month) == 2 && !IsLeap(FromBcd(year))
  {
    var y := FromBcd(year);
    var m := FromBcd(month);
    var leap := IsLeap(y);
    var knuckle := if m < 8 then m % 2 == 1 else m % 2 == 0;
    if knuckle then 0x31 else if m != 2 then 0x30 else if leap then 0x29 else 0x28
  }

  /** `days_in_month_bcd` is `month_length` of the decoded month, in BCD. */
  lemma DaysInMonthAgrees(year: Byte, month: Byte)
    ensures IsBcd(DaysInMonthBcd(year, month))
    ensures Value(DaysInMonthBcd(year, month)) == MonthLength(FromBcd(month), IsLeap(FromBcd(year)))
  {
  }

  /** The long months of `days_in_month_bcd`, by BCD month */
  lemma LongMonths(year: Byte, month: Byte)
    requires month == 0x01 || month == 0x03 || month == 0x05 || month == 0x07
             || month == 0x08 || month == 0x10 || month == 0x12
    ensures DaysInMonthBcd(year, month) == 0x31
  {
    if month < 0x10 {
      LongMonthsBelowTen(year, month);
    }
  }

  lemma LongMonthsBelowTen(year: Byte, month: Byte)
    requires month == 0x01 || month == 0x03 || month == 0x05 || month == 0x07 || month == 0x08
    ensures DaysInMonthBcd(year, month) == 0x31
  {
  }

  /** The 30-day months of `days_in_month_bcd`, by BCD month */
  lemma ShortMonths(year: Byte, month: Byte)
    requires month == 0x04 || month == 0x06 || month == 0x09 || month == 0x11
    ensures DaysInMonthBcd(year, month) == 0x30
  {
  }

  /** February of `days_in_month_bcd`: 29 days when the decoded year is divisible by 4 */
  lemma February(year: Byte, month: Byte)
    requires month == 0x02
    ensures IsLeap(FromBcd(year)) ==> DaysInMonthBcd(year, month) == 0x29
    ensures !IsLeap(FromBcd(year)) ==> DaysInMonthBcd(year, month) == 0x28
  {
  }

  /**
   Dropping bit 7 in the decoding does not disturb the leap rule: on every BCD
   year 00..99 February has 29 days exactly in the years divisible by 4.
   */
  lemma LeapOnBcdYears(year: Byte)
    requires IsBcd(year)
    ensures DaysInMonthBcd(year, 0x02) == 0x29 <==> Value(year) % 4 == 0
  {
    var y, v := FromBcd(year), Value(year);
    if year >= 0x80 {
      FromBcdAbove(year);
      ShiftBy80(y, v);
    } else {
      assert y == v;
    }
    assert IsLeap(y) <==> v % 4 == 0;
    February(year, 0x02);
  }

  lemma ShiftBy80(y: nat, v: nat)
    requires y + 80 == v
    ensures y % 4 == v % 4
  {
    DivMod(v, 4, y / 4 + 20, y % 4);
  }

  /** The months `day_of_week` adds up: m - 1 down to 1; for m = 0 the byte wraps and 255 down to 1. */
  function MonthsSummed(m: Byte): (k: nat)
    ensures 1 <= k <= 256
  {
    if m == 0 then 256 else m
  }

  /** Days in the months 1 .. k - 1 */
  function MonthsBefore(k: nat, leap: bool): nat
    requires 1 <= k <= 256
  {
    if k == 1 then 0 else MonthsBefore(k - 1, leap) + MonthLength(k - 1, leap)
  }

  /** Days from the Sunday before 1 January 2000 to the given date, before 16-bit truncation */
  function DayCount(y: Byte, m: Byte, d: Byte): int
  {
    6 + y * 365 + (y + 3) / 4 + MonthsBefore(MonthsSummed(m), IsLeap(y)) + d - 1
  }

  /**
   `day_of_week(y, m, d)` with binary inputs: the day count is accumulated in a
   uint16_t, then reduced modulo 7; 0 is Sunday.
   */
  function DayOfWeek(y: Byte, m: Byte, d: Byte): (r: Byte)
    ensures r < 7
  {
    ToWord(DayCount(y, m, d)) % 7
  }

  /**
   The loop of `day_of_week` as written: `for (; --m >= 1; ) centurydays +=
   month_length(m, leap)`, all in 16-bit arithmetic.
   */
  method DayOfWeekLoop(y: Byte, m: Byte, d: Byte) returns (r: Byte)
    ensures r == DayOfWeek(y, m, d)
  {
    var leap := IsLeap(y);
    var base := 6 + y * 365 + (y + 3) / 4;
    var centurydays: Word := ToWord(base);
    var k: int := ToByte(m - 1);
    assert k + 1 == MonthsSummed(m);
    ghost var sum := base;
    while k >= 1
      invariant 0 <= k < 256
      invariant sum == base + MonthsBefore(MonthsSummed(m), leap) - MonthsBefore(k + 1, leap)
      invariant centurydays == ToWord(sum)
      decreases k
    {
      WrapAdd(sum, MonthLength(k, leap));
      centurydays := ToWord(centurydays + MonthLength(k, leap));
      sum := sum + MonthLength(k, leap);
      k := k - 1;
    }
    WrapAdd(sum, d - 1);
    centurydays := ToWord(centurydays + (d - 1));
    r := centurydays % 7;
  }

  /** 1 January 2000 was a Saturday. */
  lemma DayOfWeekAnchor()
    ensures DayOfWeek(0, 1, 1) == SATURDAY
  {
  }

  /** A valid date of the years 2000..2099 (binary fields) */
  predicate ValidDate(y: Byte, m: Byte, d: Byte) {
    y <= 99 && 1 <= m <= 12 && 1 <= d <= MonthLength(m, IsLeap(y))
  }

  /** The calendar successor of a date, with month lengths from `month_length` */
  function NextDate(y: Byte, m: Byte, d: Byte): (r: (Byte, Byte, Byte))
    requires ValidDate(y, m, d)
  {
    if d < MonthLength(m, IsLeap(y)) then (y, m, d + 1)
    else if m < 12 then (y, m + 1, 1)
    else (y + 1, 1, 1)
  }

  lemma YearDays(leap: bool)
    ensures MonthsBefore(12, leap) == 334 + (if leap then 1 else 0)
  {
    var l := if leap then 1 else 0;
    assert MonthsBefore(2, leap) == 31;
    assert MonthsBefore(3, leap) == 59 + l;
    assert MonthsBefore(4, leap) == 90 + l;
    assert MonthsBefore(5, leap) == 120 + l;
    assert MonthsBefore(6, leap) == 151 + l;
    assert MonthsBefore(7, leap) == 181 + l;
    assert MonthsBefore(8, leap) == 212 + l;
    assert MonthsBefore(9, leap) == 243 + l;
    assert MonthsBefore(10, leap) == 273 + l;
    assert MonthsBefore(11, leap) == 304 + l;
  }

  /** For a valid date the day count stays well below the 16-bit limit. */
  lemma DayCountBound(y: Byte, m: Byte, d: Byte)
    requires y <= 100 && 1 <= m <= 12 && 1 <= d <= 31
    ensures 0 <= DayCount(y, m, d) < 65535
  {
    MonthsBeforeBound(m, IsLeap(y));
  }

  lemma {:induction false} MonthsBeforeBound(k: nat, leap: bool)
    requires 1 <= k <= 13
    ensures MonthsBefore(k, leap) <= 31 * (k - 1)
  {
    if k > 1 {
      MonthsBeforeBound(k - 1, leap);
    }
  }

  /**
   The day after any date of 2000..2099 falls on the next weekday, across
   month and year ends.
   */
  lemma DayOfWeekNext(y: Byte, m: Byte, d: Byte)
    requires ValidDate(y, m, d)
    ensures var (y', m', d') := NextDate(y, m, d);
            DayOfWeek(y', m', d') == (DayOfWeek(y, m, d) + 1) % 7
  {
    var (y', m', d') := NextDate(y, m, d);
    DayCountBound(y, m, d);
    DayCountBound(y', m', d');
    if d < MonthLength(m, IsLeap(y)) {
      assert DayCount(y, m, d + 1) == DayCount(y, m, d) + 1;
    } else if m < 12 {
      NextMonthCount(y, m);
    } else {
      NextYearCount(y);
    }
    NextResidue(DayCount(y, m, d));
  }

  /** Within a month, the next day is the next weekday. */
  lemma DayOfWeekTomorrow(y: Byte, m: Byte, d: Byte)
    requires ValidDate(y, m, d) && d < MonthLength(m, IsLeap(y))
    ensures DayOfWeek(y, m, d + 1) == (DayOfWeek(y, m, d) + 1) % 7
  {
    DayOfWeekNext(y, m, d);
  }

  lemma NextMonthCount(y: Byte, m: Byte)
    requires 1 <= m < 12
    ensures DayCount(y, m + 1, 1) == DayCount(y, m, MonthLength(m, IsLeap(y))) + 1
  {
    assert MonthsSummed(m + 1) == m + 1 && MonthsSummed(m) == m;
  }

  lemma NextYearCount(y: Byte)
    requires y < 255
    ensures DayCount(y + 1, 1, 1) == DayCount(y, 12, 31) + 1
  {
    YearDays(IsLeap(y));
    assert (y + 4) / 4 == (y + 3) / 4 + (if IsLeap(y) then 1 else 0);
  }

  lemma NextResidue(c: int)
    requires 0 <= c < 65535
    ensures ToWord(c + 1) % 7 == (ToWord(c) % 7 + 1) % 7
  {
    DivMod(c, 65536, 0, c);
    DivMod(c + 1, 65536, 0, c + 1);
  }

  /** A week later is the same weekday. */
  lemma DayOfWeekWeekly(y: Byte, m: Byte, d: Byte)
    requires ValidDate(y, m, d) && d + 7 <= MonthLength(m, IsLeap(y))
    ensures DayOfWeek(y, m, d + 7) == DayOfWeek(y, m, d)
  {
    DayCountBound(y, m, d);
    DayCountBound(y, m, d + 7);
    assert DayCount(y, m, d + 7) == DayCount(y, m, d) + 7;
  }
}
