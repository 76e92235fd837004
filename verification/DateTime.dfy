/**
 Calendar arithmetic (fnd_DateTime.cpp). The reference is the Gregorian calendar, extended without end in both
 directions: lengths of months and years, summed up from 2000-01-01. Division and remainder are those of C.
 */
module DateTimes {

  import opened DivisionInC

  // ---- the calendar ----

  datatype Date = Date(year: int, month: int, day: int)

  predicate InLeapYear(year: int) {
    year % 4 == 0 && (year % 100 != 0 || year % 400 == 0)
  }

  function YearLength(year: int): int {
    if InLeapYear(year) then 366 else 365
  }

  function MonthLength(year: int, month: int): int
    requires 1 <= month <= 12
  {
    if month == 2 then (if InLeapYear(year) then 29 else 28)
    else if month == 4 || month == 6 || month == 9 || month == 11 then 30
    else 31
  }

  predicate ValidDate(date: Date) {
    1 <= date.month <= 12 && 1 <= date.day <= MonthLength(date.year, date.month)
  }

  /** The days from the start of 2000 to the start of a year. */
  function YearStart(year: int): int
    decreases if year > 2000 then year - 2000 else 2000 - year
  {
    if year == 2000 then 0
    else if year > 2000 then YearStart(year - 1) + YearLength(year - 1)
    else YearStart(year + 1) - YearLength(year)
  }

  /** The days from the start of a year to the start of a month. */
  function MonthStart(year: int, month: int): int
    requires 1 <= month <= 12
  {
    if month == 1 then 0 else MonthStart(year, month - 1) + MonthLength(year, month - 1)
  }

  /** The number of a day; 2000-01-01 has number 0. */
  function DayNumber(date: Date): int
    requires 1 <= date.month <= 12
  {
    YearStart(date.year) + MonthStart(date.year, date.month) + date.day - 1
  }

  function NextDay(date: Date): Date
    requires ValidDate(date)
  {
    if date.day < MonthLength(date.year, date.month) then date.(day := date.day + 1)
    else if date.month < 12 then Date(date.year, date.month + 1, 1)
    else Date(date.year + 1, 1, 1)
  }

  lemma YearStarts(year: int)
    ensures YearStart(year + 1) == YearStart(year) + YearLength(year)
  {
  }

  function LeapsBefore(year: int): int {
    (year - 1) / 4 - (year - 1) / 100 + (year - 1) / 400 - 484
  }

  lemma LeapsStep(year: int)
    ensures LeapsBefore(year + 1) == LeapsBefore(year) + if InLeapYear(year) then 1 else 0
  {
    assert year / 4 == (year - 1) / 4 + if year % 4 == 0 then 1 else 0;
    assert year / 100 == (year - 1) / 100 + if year % 100 == 0 then 1 else 0;
    assert year / 400 == (year - 1) / 400 + if year % 400 == 0 then 1 else 0;
  }

  lemma LeapsAtStart()
    ensures LeapsBefore(2000) == 0
  {
  }

  lemma {:induction false} YearStartClosed(year: int)
    ensures YearStart(year) == 365 * (year - 2000) + LeapsBefore(year)
    decreases if year > 2000 then year - 2000 else 2000 - year
  {
    hide LeapsBefore, InLeapYear;
    if year > 2000 {
      YearStartClosed(year - 1);
      LeapsStep(year - 1);
    } else if year < 2000 {
      YearStartClosed(year + 1);
      LeapsStep(year);
    } else {
      LeapsAtStart();
    }
  }

  lemma MonthStartTable(year: int)
    ensures MonthStart(year, 1) == 0 && MonthStart(year, 2) == 31
    ensures forall m :: 3 <= m <= 12 ==> MonthStart(year, m) == (153 * (m - 3) + 2) / 5 + YearLength(year) - 306
    ensures MonthStart(year, 12) + 31 == YearLength(year)
  {
    assert MonthStart(year, 2) == 31;
    assert MonthStart(year, 3) == 59 + YearLength(year) - 365;
    assert MonthStart(year, 4) == MonthStart(year, 3) + 31;
    assert MonthStart(year, 5) == MonthStart(year, 4) + 30;
    assert MonthStart(year, 6) == MonthStart(year, 5) + 31;
    assert MonthStart(year, 7) == MonthStart(year, 6) + 30;
    assert MonthStart(year, 8) == MonthStart(year, 7) + 31;
    assert MonthStart(year, 9) == MonthStart(year, 8) + 31;
    assert MonthStart(year, 10) == MonthStart(year, 9) + 30;
    assert MonthStart(year, 11) == MonthStart(year, 10) + 31;
    assert MonthStart(year, 12) == MonthStart(year, 11) + 30;
  }

  // ---- numbers and dates correspond ----

  lemma NextDayIsNext(date: Date)
    requires ValidDate(date)
    ensures ValidDate(NextDay(date)) && DayNumber(NextDay(date)) == DayNumber(date) + 1
  {
    YearStarts(date.year);
    MonthStartTable(date.year);
  }

  /** A date lies within its year. */
  lemma WithinYear(date: Date)
    requires ValidDate(date)
    ensures YearStart(date.year) <= DayNumber(date) < YearStart(date.year + 1)
  {
    YearStarts(date.year);
    MonthStartTable(date.year);
  }

  lemma {:induction false} LaterYears(a: int, b: int)
    requires a <= b
    ensures YearStart(a) <= YearStart(b)
    decreases b - a
  {
    if a < b {
      LaterYears(a, b - 1);
      YearStarts(b - 1);
    }
  }

  lemma {:induction false} LaterMonths(year: int, a: int, b: int)
    requires 1 <= a < b <= 12
    ensures MonthStart(year, a) + MonthLength(year, a) <= MonthStart(year, b)
    decreases b - a
  {
    if a + 1 < b {
      LaterMonths(year, a, b - 1);
    }
  }

  predicate Earlier(a: Date, b: Date) {
    a.year < b.year || (a.year == b.year && (a.month < b.month || (a.month == b.month && a.day < b.day)))
  }

  /** The numbers of valid dates are in the order of the dates, and so no two have the same. */
  lemma NumbersInOrder(a: Date, b: Date)
    requires ValidDate(a) && ValidDate(b)
    ensures Earlier(a, b) <==> DayNumber(a) < DayNumber(b)
    ensures a == b <==> DayNumber(a) == DayNumber(b)
  {
    if Earlier(a, b) {
      EarlierIsLess(a, b);
    } else if a != b {
      EarlierIsLess(b, a);
    }
  }

  lemma EarlierIsLess(a: Date, b: Date)
    requires ValidDate(a) && ValidDate(b) && Earlier(a, b)
    ensures DayNumber(a) < DayNumber(b)
  {
    if a.year < b.year {
      WithinYear(a);
      WithinYear(b);
      LaterYears(a.year + 1, b.year);
    } else if a.month < b.month {
      LaterMonths(a.year, a.month, b.month);
    }
  }

  // ---- years that start in March ----

  lemma MarchFirst(year: int)
    ensures DayNumber(Date(year, 3, 1)) == 365 * (year - 2000) + year / 4 - year / 100 + year / 400 - 425
  {
    YearStartClosed(year + 1);
    YearStarts(year);
    MonthStartTable(year);
  }

  /** The number of the first of March, from the four hundreds, hundreds, fours and ones of the years since 2000. */
  lemma MarchStart(c4: int, c1: int, y4: int, y1: int)
    requires 0 <= c1 < 4 && 0 <= y4 < 25 && 0 <= y1 < 4
    ensures var year := 2000 + 400 * c4 + 100 * c1 + 4 * y4 + y1;
            DayNumber(Date(year, 3, 1)) == 146097 * c4 + 36524 * c1 + 1461 * y4 + 365 * y1 + 60
  {
    var year := 2000 + 400 * c4 + 100 * c1 + 4 * y4 + y1;
    MarchFirst(year);
    assert year / 4 == 500 + 100 * c4 + 25 * c1 + y4;
    assert year / 100 == 20 + 4 * c4 + c1;
    assert year / 400 == 5 + c4;
  }

  lemma DivisibleBy4(a: int)
    ensures CMod(a, 4) == 0 <==> a % 4 == 0
  {
    assert a == 4 * (a / 4) + a % 4 && -a == 4 * (-a / 4) + -a % 4;
  }

  lemma DivisibleBy100(a: int)
    ensures CMod(a, 100) == 0 <==> a % 100 == 0
  {
    assert a == 100 * (a / 100) + a % 100 && -a == 100 * (-a / 100) + -a % 100;
  }

  lemma DivisibleBy400(a: int)
    ensures CMod(a, 400) == 0 <==> a % 400 == 0
  {
    assert a == 400 * (a / 400) + a % 400 && -a == 400 * (-a / 400) + -a % 400;
  }

  method IsLeapYear(year: int) returns (leap: int)
    ensures leap == if InLeapYear(year) then 1 else 0
  {
    DivisibleBy4(year);
    DivisibleBy100(year);
    DivisibleBy400(year);
    hide CMod;
    if CMod(year, 400) == 0 {
      return 1;
    } else if CMod(year, 100) == 0 {
      return 0;
    } else if CMod(year, 4) == 0 {
      return 1;
    } else {
      return 0;
    }
  }

  const C4DAYS := ((365 * 4 + 1) * 25 - 1) * 4 + 1
  const C1DAYS := (365 * 4 + 1) * 25 - 1
  const Y4DAYS := 365 * 4 + 1
  const Y1DAYS := 365

  /** The days of whole years, as they are added up when the years since 2000 are not negative. */
  lemma LaterCenturies(c4: nat, c1: int, y4: int, y1: int)
    requires 0 <= c1 < 4 && 0 <= y4 < 25 && 0 <= y1 < 4
    ensures var year := 400 * c4 + 100 * c1 + 4 * y4 + y1;
            CDiv(C4DAYS * CDiv(year, 100), 4) + CDiv(Y4DAYS * CMod(year, 100), 4)
              == C4DAYS * c4 + C1DAYS * c1 + Y4DAYS * y4 + Y1DAYS * y1
  {
    var year := 400 * c4 + 100 * c1 + 4 * y4 + y1;
    assert year / 100 == 4 * c4 + c1 && year % 100 == 4 * y4 + y1;
    assert C4DAYS * (4 * c4 + c1) == 4 * (C4DAYS * c4) + C4DAYS * c1;
    assert (C4DAYS * c1) / 4 == C1DAYS * c1;
    assert (Y4DAYS * (4 * y4 + y1)) / 4 == Y4DAYS * y4 + Y1DAYS * y1;
  }

  /** The four hundreds, hundreds, fours and ones of a number of years. */
  lemma Years(year: int) returns (c4: int, c1: int, y4: int, y1: int)
    ensures year == 400 * c4 + 100 * c1 + 4 * y4 + y1 && 0 <= c1 < 4 && 0 <= y4 < 25 && 0 <= y1 < 4
  {
    c4 := year / 400;
    var hundreds := year - 400 * c4;
    c1 := hundreds / 100;
    var fours := hundreds - 100 * c1;
    y4 := fours / 4;
    y1 := fours - 4 * y4;
  }

  /** What the whole years give: division that cuts off and the added leap day make up for each other. */
  lemma WholeYears(year: int)
    ensures var since := year - 2000;
            var offset := if since < 0 && !InLeapYear(since) then 0 else 1;
            CDiv(C4DAYS * CDiv(since, 100), 4) + CDiv(Y4DAYS * CMod(since, 100), 4) + offset + 59
              == DayNumber(Date(year, 3, 1))
  {
    var since := year - 2000;
    if since >= 0 {
      var c4, c1, y4, y1 := Years(since);
      MarchStart(c4, c1, y4, y1);
      LaterCenturies(c4, c1, y4, y1);
    } else {
      EarlierCenturies(year);
    }
  }

  lemma By4(a: int, q: int, r: int)
    requires a == 4 * q + r && 0 <= r < 4
    ensures a / 4 == q && a % 4 == r
  {
  }

  lemma By100(a: int, q: int, r: int)
    requires a == 100 * q + r && 0 <= r < 100
    ensures a / 100 == q && a % 100 == r
  {
  }

  lemma By400(a: int, q: int, r: int)
    requires a == 400 * q + r && 0 <= r < 400
    ensures a / 400 == q && a % 400 == r
  {
  }

  lemma YearsBackBy4(year: int, c4: int, c1: int, y4: int, y1: int)
    requires 2000 - year == 400 * c4 + 100 * c1 + 4 * y4 + y1 && 0 <= c1 < 4 && 0 <= y4 < 25 && 0 <= y1 < 4
    ensures year / 4 == 500 - 100 * c4 - 25 * c1 - y4 - if y1 == 0 then 0 else 1
    ensures (year - 2000) % 4 == 0 <==> y1 == 0
  {
    var back := if y1 == 0 then 0 else 1;
    By4(year, 500 - 100 * c4 - 25 * c1 - y4 - back, 4 * back - y1);
    By4(year - 2000, -100 * c4 - 25 * c1 - y4 - back, 4 * back - y1);
  }

  lemma YearsBackBy100(year: int, c4: int, c1: int, y4: int, y1: int)
    requires 2000 - year == 400 * c4 + 100 * c1 + 4 * y4 + y1 && 0 <= c1 < 4 && 0 <= y4 < 25 && 0 <= y1 < 4
    ensures year / 100 == 20 - 4 * c4 - c1 - if y4 == y1 == 0 then 0 else 1
    ensures (year - 2000) % 100 == 0 <==> y4 == y1 == 0
  {
    var back := if y4 == y1 == 0 then 0 else 1;
    By100(year, 20 - 4 * c4 - c1 - back, 100 * back - 4 * y4 - y1);
    By100(year - 2000, -4 * c4 - c1 - back, 100 * back - 4 * y4 - y1);
  }

  lemma YearsBackBy400(year: int, c4: int, c1: int, y4: int, y1: int)
    requires 2000 - year == 400 * c4 + 100 * c1 + 4 * y4 + y1 && 0 <= c1 < 4 && 0 <= y4 < 25 && 0 <= y1 < 4
    ensures year / 400 == 5 - c4 - if c1 == y4 == y1 == 0 then 0 else 1
    ensures (year - 2000) % 400 == 0 <==> c1 == y4 == y1 == 0
  {
    var back := if c1 == y4 == y1 == 0 then 0 else 1;
    By400(year, 5 - c4 - back, 400 * back - 100 * c1 - 4 * y4 - y1);
    By400(year - 2000, -c4 - back, 400 * back - 100 * c1 - 4 * y4 - y1);
  }

  lemma DivisionCutsOff(n: int)
    requires n >= 0
    ensures CDiv(-n, 100) == -CDiv(n, 100) && CMod(-n, 100) == -CMod(n, 100)
    ensures CDiv(C4DAYS * CDiv(-n, 100), 4) == -CDiv(C4DAYS * CDiv(n, 100), 4)
    ensures CDiv(Y4DAYS * CMod(-n, 100), 4) == -CDiv(Y4DAYS * CMod(n, 100), 4)
  {
  }

  lemma EarlierCenturies(year: int)
    requires year < 2000
    ensures var since := year - 2000;
            CDiv(C4DAYS * CDiv(since, 100), 4) + CDiv(Y4DAYS * CMod(since, 100), 4)
              + (if InLeapYear(since) then 1 else 0) + 59 == DayNumber(Date(year, 3, 1))
  {
    hide CDiv, CMod, DayNumber;
    var c4, c1, y4, y1 := Years(2000 - year);
    LaterCenturies(c4, c1, y4, y1);
    DivisionCutsOff(2000 - year);
    YearsBackBy4(year, c4, c1, y4, y1);
    YearsBackBy100(year, c4, c1, y4, y1);
    YearsBackBy400(year, c4, c1, y4, y1);
    MarchFirst(year);
  }

  /** In the year that begins with March, all months lie where one formula says. */
  lemma MonthFromMarch(year: int, m: int, day: int)
    requires 0 <= m <= 11
    ensures DayNumber(if m < 10 then Date(year, m + 3, day) else Date(year + 1, m - 9, day))
            == DayNumber(Date(year, 3, 1)) + (153 * m + 2) / 5 + day - 1
  {
    YearStarts(year);
    MonthStartTable(year);
    MonthStartTable(year + 1);
  }

  /** Months beyond the end of the year, and before its start, taken as those of another year. */
  function MonthsRunOn(date: Date): (d: Date)
    ensures 1 <= d.month <= 12 && 12 * d.year + d.month == 12 * date.year + date.month
  {
    Date(date.year + (date.month - 1) / 12, (date.month - 1) % 12 + 1, date.day)
  }

  lemma FromMarch(year: int, month: int, day: int)
    requires -9 <= month <= 14
    ensures var y, m := if month <= 2 then year - 1 else year, if month <= 2 then month + 9 else month - 3;
            MonthsRunOn(Date(year, month, day)) == if m < 10 then Date(y, m + 3, day) else Date(y + 1, m - 9, day)
    ensures 1 <= month <= 12 ==> MonthsRunOn(Date(year, month, day)) == Date(year, month, day)
  {
  }

  /**
   The number of a day; days beyond the end of the month count on, and so do months, from the March before the year to
   the February after it.
   */
  method DateToDays(year: int, month: int, day: int) returns (days: int)
    ensures -9 <= month <= 14 ==> days == DayNumber(MonthsRunOn(Date(year, month, day)))
    ensures 1 <= month <= 12 ==> days == DayNumber(Date(year, month, day))
  {
    var day := day - 1;
    var y := year - 2000;
    var m;
    if month <= 2 {
      m := month + (12 - 3);
      y := y - 1;
    } else {
      m := month - 3;
    }
    var offset := 1;
    if y < 0 {
      offset := IsLeapYear(y);
    }
    WholeYears(y + 2000);
    if 0 <= m <= 11 {
      MonthFromMarch(y + 2000, m, day + 1);
      FromMarch(year, month, day + 1);
    }
    hide DayNumber, MonthsRunOn, CMod;
    return CDiv(C4DAYS * CDiv(y, 100), 4) + CDiv(Y4DAYS * CMod(y, 100), 4) + CDiv(153 * m + 2, 5) + day + (31 + 28)
           + offset;
  }

  /** The month, counted from March, in which a day of the year lies. */
  lemma MonthOfDay(ydays: int)
    requires 0 <= ydays < 365
    ensures var m := (5 * ydays + 2) / 153;
            0 <= m <= 11 && (153 * m + 2) / 5 <= ydays < (153 * (m + 1) + 2) / 5
  {
    var m := (5 * ydays + 2) / 153;
    assert 153 * m <= 5 * ydays + 2 < 153 * (m + 1);
  }

  function DateInMarchYear(year: int, ydays: int): Date
    requires 0 <= ydays < 365
  {
    var m := (5 * ydays + 2) / 153;
    var day := ydays - (153 * m + 2) / 5 + 1;
    if m <= 9 then Date(year, m + 3, day) else Date(year + 1, m - 9, day)
  }

  lemma DayOfMarchYear(year: int, ydays: int)
    requires 0 <= ydays < 365
    ensures ValidDate(DateInMarchYear(year, ydays))
    ensures DayNumber(DateInMarchYear(year, ydays)) == DayNumber(Date(year, 3, 1)) + ydays
  {
    MonthOfDay(ydays);
    MonthStartTable(year);
    MonthStartTable(year + 1);
    YearStarts(year);
    var m := (5 * ydays + 2) / 153;
    if m <= 9 {
      MonthLengths(year, m);
    }
  }

  /** From March on, the lengths are the distances between the starts, all but the last. */
  lemma MonthLengths(year: int, m: int)
    requires 0 <= m <= 9
    ensures MonthLength(year, m + 3) == (153 * (m + 1) + 2) / 5 - (153 * m + 2) / 5
  {
    assert m == 0 || m == 1 || m == 2 || m == 3 || m == 4 || m == 5 || m == 6 || m == 7 || m == 8 || m == 9;
  }

  /** The last day of a leap year that starts in March: the year itself is divisible by 4, as the calendar counts. */
  lemma LeapDay(c4: int, c1: int, y4: int)
    requires 0 <= c1 < 4 && 0 <= y4 < 25 && (y4 == 24 ==> c1 == 3)
    ensures var year := 2000 + 400 * c4 + 100 * c1 + 4 * y4 + 4;
            ValidDate(Date(year, 2, 29))
            && DayNumber(Date(year, 2, 29)) == C4DAYS * c4 + C1DAYS * c1 + Y4DAYS * y4 + 4 * Y1DAYS + 60
  {
    hide InLeapYear;
    var year := 2000 + 400 * c4 + 100 * c1 + 4 * y4 + 4;
    LeapYearEnds(c4, c1, y4);
    MarchStart(c4, c1, y4, 3);
    MonthStartTable(year);
    MonthStartTable(year - 1);
    YearStarts(year - 1);
  }

  lemma LeapYearEnds(c4: int, c1: int, y4: int)
    requires 0 <= c1 < 4 && 0 <= y4 < 25 && (y4 == 24 ==> c1 == 3)
    ensures InLeapYear(2000 + 400 * c4 + 100 * c1 + 4 * y4 + 4)
  {
    var year := 2000 + 400 * c4 + 100 * c1 + 4 * y4 + 4;
    assert year == 4 * (500 + 100 * c4 + 25 * c1 + y4 + 1);
    if y4 == 24 {
      assert year == 400 * (5 + c4 + 1);
    } else {
      assert year == 100 * (20 + 4 * c4 + c1) + (4 * y4 + 4);
    }
  }

  /** A number of days since the first of March 2000, as four hundreds, hundreds, fours and ones of years, and days. */
  method SplitDays(d: int) returns (c4: int, c1: int, y4: int, y1: int, ydays: int)
    ensures d == C4DAYS * c4 + C1DAYS * c1 + Y4DAYS * y4 + Y1DAYS * y1 + ydays
    ensures 0 <= c1 <= 4 && 0 <= y4 <= 24 && 0 <= y1 <= 4 && 0 <= ydays < Y1DAYS
    ensures y1 == 4 ==> ydays == 0 && c1 < 4 && (y4 == 24 ==> c1 == 3)
    ensures c1 == 4 ==> y4 == y1 == ydays == 0
  {
    hide CDiv, CMod;
    CDivision(d, C4DAYS);
    c4 := CDiv(d, C4DAYS);
    var c4ds := CMod(d, C4DAYS);
    if c4ds < 0 {
      c4ds := c4ds + C4DAYS;
      c4 := c4 - 1;
    }
    var c1ds, y4ds;
    CDivision(c4ds, C1DAYS);
    c1, c1ds := CDiv(c4ds, C1DAYS), CMod(c4ds, C1DAYS);
    CDivision(c1ds, Y4DAYS);
    y4, y4ds := CDiv(c1ds, Y4DAYS), CMod(c1ds, Y4DAYS);
    CDivision(y4ds, Y1DAYS);
    y1, ydays := CDiv(y4ds, Y1DAYS), CMod(y4ds, Y1DAYS);
  }

  /** The one valid date that has this number. */
  method DaysToDate(days: int) returns (date: Date)
    ensures ValidDate(date) && DayNumber(date) == days
  {
    hide DayNumber, ValidDate;
    var c4, c1, y4, y1, ydays := SplitDays(days - (31 + 29));
    var year := 2000 + c4 * 400 + c1 * 100 + y4 * 4 + y1;
    var month := CDiv(5 * ydays + 2, 153);
    var day := ydays - CDiv(153 * month + 2, 5) + 1;
    if y1 == 4 || c1 == 4 {
      month := 2 + (12 - 3);
      day := 29;
      year := year - 1;
      LeapDay(c4, if c1 == 4 then 3 else c1, if c1 == 4 then 24 else y4);
    } else {
      MarchStart(c4, c1, y4, y1);
      DayOfMarchYear(year, ydays);
    }
    if month <= 12 - 3 {
      month := month + 3;
    } else {
      month := month - (12 - 3);
      year := year + 1;
    }
    return Date(year, month, day);
  }

  /** The date of a day number, without the arithmetic: from the start of 2000, one day after the other. */
  function DateOf(days: int): (date: Date)
    ensures ValidDate(date) && DayNumber(date) == days
    decreases if days >= 0 then days else -days
  {
    if days == 0 then Date(2000, 1, 1)
    else if days > 0 then
      NextDayIsNext(DateOf(days - 1));
      NextDay(DateOf(days - 1))
    else
      PreviousDayIsPrevious(DateOf(days + 1));
      PreviousDay(DateOf(days + 1))
  }

  function PreviousDay(date: Date): Date
    requires ValidDate(date)
  {
    if date.day > 1 then date.(day := date.day - 1)
    else if date.month > 1 then Date(date.year, date.month - 1, MonthLength(date.year, date.month - 1))
    else Date(date.year - 1, 12, 31)
  }

  lemma PreviousDayIsPrevious(date: Date)
    requires ValidDate(date)
    ensures ValidDate(PreviousDay(date)) && DayNumber(PreviousDay(date)) == DayNumber(date) - 1
    ensures NextDay(PreviousDay(date)) == date
  {
    hide DayNumber;
    NextDayIsNext(PreviousDay(date));
  }

  /** Dates and numbers correspond one to one, and consecutive numbers are consecutive days. */
  lemma CalendarBijection(days: int, date: Date)
    requires ValidDate(date)
    ensures DayNumber(DateOf(days)) == days
    ensures DateOf(DayNumber(date)) == date
    ensures DateOf(days + 1) == NextDay(DateOf(days))
    ensures DateOf(0) == Date(2000, 1, 1)
  {
    NumbersInOrder(DateOf(DayNumber(date)), date);
    NextDayIsNext(DateOf(days));
    NumbersInOrder(DateOf(days + 1), NextDay(DateOf(days)));
  }

  // ---- days of the week ----

  const WEEK_SATURDAY := 6
  const WEEK_MAX := 7

  function Modulo32(a: int, b: int): int
    requires b > 0
  {
    CMod(CMod(a, b) + b, b)
  }

  function DaysToWeekday(days: int): int {
    Modulo32(days + WEEK_SATURDAY, WEEK_MAX)
  }

  /** 2000-01-01 was a Saturday, and from day to day the week goes on, also before 2000. */
  lemma WeekGoesOn(days: int)
    ensures DaysToWeekday(0) == WEEK_SATURDAY && 0 <= DaysToWeekday(days) < WEEK_MAX
    ensures DaysToWeekday(days + 1) == if DaysToWeekday(days) == WEEK_SATURDAY then 0 else DaysToWeekday(days) + 1
  {
    hide DaysToWeekday;
    WeekdayIsRemainder(0);
    WeekdayIsRemainder(days);
    WeekdayIsRemainder(days + 1);
    var q := (days + 6) / 7;
    assert days + 6 == 7 * q + (days + 6) % 7;
    assert (days + 6) % 7 == 6 ==> days + 7 == 7 * (q + 1);
  }

  lemma WeekdayIsRemainder(days: int)
    ensures DaysToWeekday(days) == (days + 6) % 7
  {
    var a := days + 6;
    assert a == 7 * (a / 7) + a % 7 && -a == 7 * (-a / 7) + -a % 7;
  }

  // ---- times ----

  const MILLISECONDS_DAY := 1000 * 60 * 60 * 24

  /** The day number of 0001-01-01, without its sign. */
  const DAYS_BEFORE_2000 := 730119

  datatype DateTimeParameters = DateTimeParameters(
    date: Date, week: int, hour: int, minute: int, second: int, milliSecond: int)

  function MilliSecondsOnDay(milliSeconds: int): int {
    CMod(milliSeconds + DAYS_BEFORE_2000 * MILLISECONDS_DAY, MILLISECONDS_DAY)
  }

  function AlignedDays(milliSeconds: int): int {
    CDiv(milliSeconds + DAYS_BEFORE_2000 * MILLISECONDS_DAY, MILLISECONDS_DAY) - DAYS_BEFORE_2000
  }

  predicate ValidTime(p: DateTimeParameters) {
    0 <= p.hour < 24 && 0 <= p.minute < 60 && 0 <= p.second < 60 && 0 <= p.milliSecond < 1000
  }

  predicate ValidParameters(p: DateTimeParameters) {
    ValidTime(p) && ValidDate(p.date) && p.week == DaysToWeekday(DayNumber(p.date))
  }

  function TimeOnDay(p: DateTimeParameters): int {
    p.milliSecond + 1000 * p.second + 1000 * 60 * p.minute + 1000 * 60 * 60 * p.hour
  }

  /** The moment that the parameters name, in milliseconds since 2000-01-01. */
  function TimeOf(p: DateTimeParameters): int
    requires 1 <= p.date.month <= 12
  {
    TimeOnDay(p) + MILLISECONDS_DAY * DayNumber(p.date)
  }

  /** Where the day of a time is found: from year 1 on, and before it at midnight. */
  predicate DayIsFound(t: int) {
    t >= -DAYS_BEFORE_2000 * MILLISECONDS_DAY || t % MILLISECONDS_DAY == 0
  }

  method FromParamaters(p: DateTimeParameters) returns (milliSeconds: int)
    ensures -9 <= p.date.month <= 14 ==> milliSeconds == TimeOf(p.(date := MonthsRunOn(p.date)))
    ensures 1 <= p.date.month <= 12 ==> milliSeconds == TimeOf(p)
  {
    var days := DateToDays(p.date.year, p.date.month, p.date.day);
    return p.milliSecond + 1000 * p.second + 1000 * 60 * p.minute + 1000 * 60 * 60 * p.hour
           + 1000 * 60 * 60 * 24 * days;
  }

  lemma DayAndRest(t: int)
    ensures t == MILLISECONDS_DAY * AlignedDays(t) + MilliSecondsOnDay(t)
    ensures -MILLISECONDS_DAY < MilliSecondsOnDay(t) < MILLISECONDS_DAY
    ensures MilliSecondsOnDay(t) >= 0 <==> DayIsFound(t)
  {
    CDivision(t + DAYS_BEFORE_2000 * MILLISECONDS_DAY, MILLISECONDS_DAY);
  }

  lemma CDivisionOfNegative(a: int, b: int)
    requires b > 0
    ensures CDiv(-a, b) == -CDiv(a, b) && CMod(-a, b) == -CMod(a, b)
  {
  }

  /** A time of the day falls into its parts; the parts of a negative one are not positive. */
  lemma Parts(msec: int)
    requires -MILLISECONDS_DAY < msec < MILLISECONDS_DAY
    ensures var h, m, s, ms := CDiv(msec, 1000 * 60 * 60), CMod(CDiv(msec, 1000 * 60), 60),
                               CMod(CDiv(msec, 1000), 60), CMod(msec, 1000);
            && ms + 1000 * s + 1000 * 60 * m + 1000 * 60 * 60 * h == msec
            && (msec >= 0 ==> 0 <= h < 24 && 0 <= m < 60 && 0 <= s < 60 && 0 <= ms < 1000)
            && (msec < 0 ==> h <= 0 && m <= 0 && s <= 0 && ms <= 0)
  {
    if msec >= 0 {
      PartsOfDay(msec);
    } else {
      PartsOfDay(-msec);
      hide CDiv, CMod;
      CDivisionOfNegative(-msec, 1000 * 60 * 60);
      CDivisionOfNegative(-msec, 1000 * 60);
      CDivisionOfNegative(-msec, 1000);
      CDivisionOfNegative(CDiv(-msec, 1000 * 60), 60);
      CDivisionOfNegative(CDiv(-msec, 1000), 60);
    }
  }

  lemma PartsOfDay(msec: int)
    requires 0 <= msec < MILLISECONDS_DAY
    ensures var h, m, s, ms := CDiv(msec, 1000 * 60 * 60), CMod(CDiv(msec, 1000 * 60), 60),
                               CMod(CDiv(msec, 1000), 60), CMod(msec, 1000);
            && ms + 1000 * s + 1000 * 60 * m + 1000 * 60 * 60 * h == msec
            && 0 <= h < 24 && 0 <= m < 60 && 0 <= s < 60 && 0 <= ms < 1000
  {
    var s := msec / 1000;
    var m := s / 60;
    MinutesOf(msec);
    HoursOf(msec);
  }

  lemma MinutesOf(msec: int)
    ensures msec / (1000 * 60) == msec / 1000 / 60
  {
  }

  lemma HoursOf(msec: int)
    ensures msec / (1000 * 60 * 60) == msec / (1000 * 60) / 60
  {
  }

  /** The parameters of a time: taken together they always name it, and they are valid exactly when the day is found. */
  method GetParameters(milliSeconds: int) returns (p: DateTimeParameters)
    ensures ValidDate(p.date) && TimeOf(p) == milliSeconds
    ensures ValidParameters(p) <==> DayIsFound(milliSeconds)
  {
    hide DayNumber, ValidDate, CDiv, CMod, DaysToWeekday, MilliSecondsOnDay, AlignedDays;
    var msec := MilliSecondsOnDay(milliSeconds);
    var days := AlignedDays(milliSeconds);
    DayAndRest(milliSeconds);
    var date := DaysToDate(days);
    Parts(msec);
    p := DateTimeParameters(date, DaysToWeekday(days), CDiv(msec, 1000 * 60 * 60), CMod(CDiv(msec, 1000 * 60), 60),
                            CMod(CDiv(msec, 1000), 60), CMod(msec, 1000));
  }

  /** A time has only one set of valid parameters. */
  lemma ParametersAreUnique(p: DateTimeParameters, q: DateTimeParameters)
    requires ValidParameters(p) && ValidParameters(q) && TimeOf(p) == TimeOf(q)
    ensures p == q
  {
    hide DayNumber, TimeOnDay, DaysToWeekday;
    TimeIsOnDay(p);
    TimeIsOnDay(q);
    assert DayNumber(p.date) == DayNumber(q.date);
    NumbersInOrder(p.date, q.date);
    PartsAreUnique(p, q);
  }

  lemma PartsAreUnique(p: DateTimeParameters, q: DateTimeParameters)
    requires ValidTime(p) && ValidTime(q) && TimeOnDay(p) == TimeOnDay(q)
    ensures p.hour == q.hour && p.minute == q.minute && p.second == q.second && p.milliSecond == q.milliSecond
  {
  }

  lemma TimeIsOnDay(p: DateTimeParameters)
    requires ValidTime(p)
    ensures 0 <= TimeOnDay(p) < MILLISECONDS_DAY
  {
  }

  /** Taking valid parameters there and back gives them again exactly from year 1 on, and before it at midnight. */
  method ThereAndBack(p: DateTimeParameters) returns (q: DateTimeParameters)
    requires ValidParameters(p)
    ensures q == p <==> p.date.year >= 1 || TimeOnDay(p) == 0
  {
    var t := FromParamaters(p);
    q := GetParameters(t);
    FoundFromYearOne(p);
    if DayIsFound(t) {
      ParametersAreUnique(p, q);
    }
  }

  /** The last millisecond of the year 0: it is a valid time, and comes back as something that is none. */
  method LastOfYearZero() returns (p: DateTimeParameters, q: DateTimeParameters)
    ensures p.date.year == 0 && p.date.month == 12 && p.date.day == 31 && ValidParameters(p)
    ensures TimeOf(p) == -DAYS_BEFORE_2000 * MILLISECONDS_DAY - 1
    ensures ValidDate(q.date) && TimeOf(q) == TimeOf(p) && !ValidParameters(q)
  {
    hide DayNumber, DaysToWeekday, MonthsRunOn;
    var date := Date(0, 12, 31);
    LastDayOfYearZero(date);
    p := DateTimeParameters(date, DaysToWeekday(-DAYS_BEFORE_2000 - 1), 23, 59, 59, 999);
    var t := FromParamaters(p);
    q := GetParameters(t);
  }

  lemma LastDayOfYearZero(date: Date)
    requires date.year == 0 && date.month == 12 && date.day == 31
    ensures DayNumber(date) == -DAYS_BEFORE_2000 - 1
  {
    FirstDayOfYearOne();
    NextDayIsNext(date);
  }

  /** The other way round gives every time again. */
  method BackAndThere(milliSeconds: int) returns (t: int)
    ensures t == milliSeconds
  {
    var p := GetParameters(milliSeconds);
    t := FromParamaters(p);
  }

  lemma FoundFromYearOne(p: DateTimeParameters)
    requires ValidParameters(p)
    ensures DayIsFound(TimeOf(p)) <==> p.date.year >= 1 || TimeOnDay(p) == 0
  {
    hide DayNumber, TimeOnDay, DaysToWeekday;
    var first := Date(1, 1, 1);
    FirstDayOfYearOne();
    NumbersInOrder(p.date, first);
    TimeIsOnDay(p);
    RestOfDay(DayNumber(p.date), TimeOnDay(p));
  }

  lemma RestOfDay(days: int, msec: int)
    requires 0 <= msec < MILLISECONDS_DAY
    ensures DayIsFound(msec + MILLISECONDS_DAY * days) <==> days >= -DAYS_BEFORE_2000 || msec == 0
  {
    assert (msec + MILLISECONDS_DAY * days) % MILLISECONDS_DAY == msec;
  }

  lemma FirstDayOfYearOne()
    ensures DayNumber(Date(1, 1, 1)) == -DAYS_BEFORE_2000
  {
    YearStartClosed(1);
  }
}
