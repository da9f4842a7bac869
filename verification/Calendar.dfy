/**
 The closed-form day-count-to-date conversion of src/plugin/server.rs, proved equal to a calendar that
 turns one page a day.
 */
module Calendar {
  datatype Date = Date(year: int, month: int, day: int)

  // The reference: the Gregorian calendar, one day at a time.

  predicate IsLeap(year: int) {
    year % 4 == 0 && (year % 100 != 0 || year % 400 == 0)
  }

  function DaysInMonth(year: int, month: int): int {
    if month == 2 then (if IsLeap(year) then 29 else 28)
    else if month == 4 || month == 6 || month == 9 || month == 11 then 30
    else 31
  }

  predicate IsDate(d: Date) {
    1 <= d.month <= 12 && 1 <= d.day <= DaysInMonth(d.year, d.month)
  }

  function NextDay(d: Date): Date {
    if d.day < DaysInMonth(d.year, d.month) then d.(day := d.day + 1)
    else if d.month < 12 then Date(d.year, d.month + 1, 1)
    else Date(d.year + 1, 1, 1)
  }

  /** The date `n` days after 1970-01-01. */
  function DateAfter(n: nat): Date {
    if n == 0 then Date(1970, 1, 1) else NextDay(DateAfter(n - 1))
  }

  // The code.

  /** The year of a day of the 400-year era, by corrected division. */
  function YearOfEra(doe: nat): nat
    requires doe < 146_097
  {
    (doe - doe / 1460 + doe / 36_524 - doe / 146_096) / 365
  }

  function CivilFromDays(n: nat): Date {
    var days := n + 719_468;
    // The initialiser reads (if days >= 0 { days } else { days - 146_096 }) / 146_097.
    var era := (if days >= 0 then days else days - 146_096) / 146_097;
    var doe := days - era * 146_097;
    var yoe := YearOfEra(doe);
    var y := yoe + era * 400;
    var doy := doe - (365 * yoe + yoe / 4 - yoe / 100);
    var mp := (5 * doy + 2) / 153;
    var d := doy - (153 * mp + 2) / 5 + 1;
    var m := if mp < 10 then mp + 3 else mp - 9;
    Date(if m <= 2 then y + 1 else y, m, d)
  }

  // Between the two: counting days directly. Years start on the first of March.

  /** Months since March. */
  function MonthIndex(month: int): int {
    if month > 2 then month - 3 else month + 9
  }

  function MarchYear(d: Date): int {
    if d.month <= 2 then d.year - 1 else d.year
  }

  /** The days of an era before its year `yoe`. */
  function YearStart(yoe: nat): int {
    365 * yoe + yoe / 4 - yoe / 100
  }

  function DayOfYear(d: Date): int {
    (153 * MonthIndex(d.month) + 2) / 5 + d.day - 1
  }

  /** Days from 1970-01-01 to `d`. */
  function DaysFromCivil(d: Date): int {
    var y := MarchYear(d);
    146_097 * (y / 400) + YearStart(y % 400) + DayOfYear(d) - 719_468
  }

  lemma QuotientIs(n: int, d: int, q: int, r: int)
    requires d > 0 && n == d * q + r && 0 <= r < d
    ensures n / d == q && n % d == r
  {
    var k := q - n / d;
    assert d * (n / d) + n % d == n;
    assert d * k == d * q - d * (n / d);
    assert -d < d * k < d;
    assert k >= 1 ==> d * k >= d;
    assert k <= -1 ==> d * k <= -d;
  }

  /** A March-based year as era, century, four-year cycle and year of the cycle. */
  datatype Parts = Parts(era: int, c: int, q: int, s: int)

  function PartsOf(y: int): (p: Parts)
    ensures y == 400 * p.era + 100 * p.c + 4 * p.q + p.s
    ensures 0 <= p.c < 4 && 0 <= p.q < 25 && 0 <= p.s < 4
  {
    var k := y % 400;
    var r := k % 100;
    Parts(y / 400, k / 100, r / 4, r % 4)
  }

  lemma YearStartOfParts(y: int)
    ensures var p := PartsOf(y);
            y / 400 == p.era && YearStart(y % 400) == 36_524 * p.c + 1461 * p.q + 365 * p.s
  {
    var p := PartsOf(y);
    var k := 100 * p.c + 4 * p.q + p.s;
    QuotientIs(y, 400, p.era, k);
    QuotientIs(k, 4, 25 * p.c + p.q, p.s);
    QuotientIs(k, 100, p.c, 4 * p.q + p.s);
  }

  /** The year after `y` is the one whose February ends the March-based year `y`. */
  lemma LeapByParts(y: int)
    ensures var p := PartsOf(y);
            IsLeap(y + 1) <==> p.s == 3 && (p.q != 24 || p.c == 3)
  {
    var p := PartsOf(y);
    var z := y + 1;
    if p.s < 3 {
      QuotientIs(z, 4, 100 * p.era + 25 * p.c + p.q, p.s + 1);
    } else {
      QuotientIs(z, 4, 100 * p.era + 25 * p.c + p.q + 1, 0);
      if p.q < 24 {
        QuotientIs(z, 100, 4 * p.era + p.c, 4 * p.q + 4);
      } else {
        QuotientIs(z, 100, 4 * p.era + p.c + 1, 0);
        if p.c < 3 {
          QuotientIs(z, 400, p.era, 100 * p.c + 100);
        } else {
          QuotientIs(z, 400, p.era + 1, 0);
        }
      }
    }
  }

  lemma PartsAreUnique(p: Parts, r: Parts)
    requires 400 * p.era + 100 * p.c + 4 * p.q + p.s == 400 * r.era + 100 * r.c + 4 * r.q + r.s
    requires 0 <= p.c < 4 && 0 <= p.q < 25 && 0 <= p.s < 4
    requires 0 <= r.c < 4 && 0 <= r.q < 25 && 0 <= r.s < 4
    ensures p == r
  {
  }

  lemma NextParts(y: int)
    ensures var p := PartsOf(y);
            PartsOf(y + 1) == if p.s < 3 then p.(s := p.s + 1)
                              else if p.q < 24 then p.(q := p.q + 1, s := 0)
                              else if p.c < 3 then p.(c := p.c + 1, q := 0, s := 0)
                              else Parts(p.era + 1, 0, 0, 0)
  {
    hide PartsOf;
    var p := PartsOf(y);
    var next := if p.s < 3 then p.(s := p.s + 1)
                else if p.q < 24 then p.(q := p.q + 1, s := 0)
                else if p.c < 3 then p.(c := p.c + 1, q := 0, s := 0)
                else Parts(p.era + 1, 0, 0, 0);
    PartsAreUnique(PartsOf(y + 1), next);
  }

  lemma NextYearStart(y: int)
    ensures 146_097 * ((y + 1) / 400) + YearStart((y + 1) % 400)
         == 146_097 * (y / 400) + YearStart(y % 400) + (if IsLeap(y + 1) then 366 else 365)
  {
    hide IsLeap, YearStart, PartsOf;
    YearStartOfParts(y);
    YearStartOfParts(y + 1);
    LeapByParts(y);
    NextParts(y);
  }

  /** The day of the year goes on over the end of a month, but for the one that ends the March-based year. */
  lemma MonthsAreConsecutive(year: int, month: int)
    requires 1 <= month <= 12 && month != 2
    ensures DayOfYear(Date(year, month % 12 + 1, 1)) == DayOfYear(Date(year, month, DaysInMonth(year, month))) + 1
  {
    hide IsLeap;
    var mp := MonthIndex(month);
    assert mp == 0 || mp == 1 || mp == 2 || mp == 3 || mp == 4 || mp == 5 || mp == 6 || mp == 7 || mp == 8
        || mp == 9 || mp == 10;
  }

  lemma LastDayOfFebruary(year: int)
    ensures DayOfYear(Date(year, 2, DaysInMonth(year, 2))) == if IsLeap(year) then 365 else 364
    ensures DayOfYear(Date(year, 3, 1)) == 0
  {
    hide IsLeap;
  }

  /** Turning the page counts one day. */
  lemma NextDayCountsOne(d: Date)
    requires IsDate(d)
    ensures IsDate(NextDay(d)) && DaysFromCivil(NextDay(d)) == DaysFromCivil(d) + 1
  {
    hide IsLeap, YearStart;
    if d.day < DaysInMonth(d.year, d.month) {
      assert DayOfYear(NextDay(d)) == DayOfYear(d) + 1 && MarchYear(NextDay(d)) == MarchYear(d);
    } else {
      hide DayOfYear;
      if d.month == 2 {
        LastDayOfFebruary(d.year);
        NextYearStart(d.year - 1);
      } else {
        MonthsAreConsecutive(d.year, d.month);
        DayOfYearHasNoYear(d.year, d.year + 1, 1, 1);
      }
    }
  }

  lemma DayOfYearHasNoYear(year: int, year': int, month: int, day: int)
    ensures DayOfYear(Date(year, month, day)) == DayOfYear(Date(year', month, day))
  {
  }

  /** The division by 365 of the corrected count finds the year: day `doy` of year `yoe` of the era. */
  lemma YearOfEraIsYear(yoe: nat, doy: nat)
    requires yoe < 400 && doy < (if IsLeap(yoe + 1) then 366 else 365)
    ensures 0 <= YearStart(yoe) + doy < 146_097
    ensures YearOfEra(YearStart(yoe) + doy) == yoe
  {
    hide IsLeap, PartsOf, YearStart;
    YearStartOfParts(yoe);
    LeapByParts(yoe);
    var p := PartsOf(yoe);
    QuotientIs(yoe, 400, 0, yoe);
    var doe := YearStart(yoe) + doy;
    var extra := 24 * p.c + p.q + 365 * p.s + doy;
    assert doe == 1460 * (25 * p.c + p.q) + extra;
    if doe == 146_096 {
      assert yoe == 399;
    } else {
      assert doe < 146_096;
      var e := if extra >= 1460 then 1 else 0;
      assert extra < 2920;
      QuotientIs(doe, 1460, 25 * p.c + p.q + e, extra - 1460 * e);
      QuotientIs(doe, 36_524, p.c, 1461 * p.q + 365 * p.s + doy);
      QuotientIs(doe, 146_096, 0, doe);
      QuotientIs(doe - doe / 1460 + doe / 36_524, 365, yoe, doy - e);
    }
  }

  /** The month comes back from the day of the year, which fits the year. */
  lemma MonthFromDayOfYear(d: Date)
    requires IsDate(d)
    ensures (5 * DayOfYear(d) + 2) / 153 == MonthIndex(d.month)
    ensures 0 <= DayOfYear(d) < (if IsLeap(MarchYear(d) + 1) then 366 else 365)
  {
    var mp := MonthIndex(d.month);
    assert mp == 0 || mp == 1 || mp == 2 || mp == 3 || mp == 4 || mp == 5 || mp == 6 || mp == 7 || mp == 8
        || mp == 9 || mp == 10 || mp == 11;
  }

  lemma LeapInEra(y: int)
    ensures IsLeap(y + 1) <==> IsLeap(y % 400 + 1)
  {
    hide PartsOf, IsLeap;
    LeapByParts(y);
    LeapByParts(y % 400);
    var p := PartsOf(y);
    QuotientIs(y, 400, p.era, 100 * p.c + 4 * p.q + p.s);
    PartsAreUnique(PartsOf(y % 400), p.(era := 0));
  }

  lemma YearStartIs(k: nat)
    ensures YearStart(k) == 365 * k + k / 4 - k / 100
  {
  }

  /** The closed form inverts the count, for every date of the Gregorian calendar from 1970 on. */
  lemma CivilInvertsDays(d: Date)
    requires IsDate(d) && DaysFromCivil(d) >= 0
    ensures CivilFromDays(DaysFromCivil(d)) == d
  {
    hide IsLeap, YearStart, YearOfEra;
    var y := MarchYear(d);
    var (era, yoe, doy) := (y / 400, y % 400, DayOfYear(d));
    MonthFromDayOfYear(d);
    LeapInEra(y);
    YearOfEraIsYear(yoe, doy);
    var days := DaysFromCivil(d) + 719_468;
    QuotientIs(days, 146_097, era, YearStart(yoe) + doy);
    assert YearStart(yoe) == 365 * yoe + yoe / 4 - yoe / 100 by {
      YearStartIs(yoe);
    }
  }

  lemma {:induction false} DateAfterCounts(n: nat)
    ensures IsDate(DateAfter(n)) && DaysFromCivil(DateAfter(n)) == n
  {
    if n > 0 {
      DateAfterCounts(n - 1);
      NextDayCountsOne(DateAfter(n - 1));
    }
  }

  /** The closed form is the calendar, for every number of days, and counting the days back is the identity. */
  lemma ClosedFormIsTheCalendar(n: nat)
    ensures CivilFromDays(n) == DateAfter(n)
    ensures IsDate(CivilFromDays(n)) && DaysFromCivil(CivilFromDays(n)) == n
  {
    DateAfterCounts(n);
    CivilInvertsDays(DateAfter(n));
  }

  predicate Earlier(a: Date, b: Date) {
    a.year < b.year || (a.year == b.year && (a.month < b.month || (a.month == b.month && a.day < b.day)))
  }

  /** Later days have later dates. */
  lemma {:induction false} DatesAreOrdered(m: nat, n: nat)
    requires m < n
    ensures Earlier(CivilFromDays(m), CivilFromDays(n))
    decreases n
  {
    hide CivilFromDays, DaysFromCivil, IsLeap;
    ClosedFormIsTheCalendar(n - 1);
    ClosedFormIsTheCalendar(n);
    if m < n - 1 {
      DatesAreOrdered(m, n - 1);
    }
  }

  /** Four digits hold the year of every 64-bit nanosecond count. */
  lemma {:induction false} YearHasFourDigits(n: nat)
    requires n <= 0xFFFF_FFFF_FFFF_FFFF / 86_400_000_000_000
    ensures 1970 <= CivilFromDays(n).year < 10_000
  {
    ClosedFormIsTheCalendar(n);
    var d := CivilFromDays(n);
    var y := MarchYear(d);
    assert y == 400 * (y / 400) + y % 400;
    if n > 0 {
      DatesAreOrdered(0, n);
    }
    ClosedFormIsTheCalendar(0);
  }
}
