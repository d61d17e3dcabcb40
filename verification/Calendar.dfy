/** Julian day numbers, Gregorian dates and UTC broken-down time. */
module Calendar {

  datatype Date = Date(year: int, month: int, day: int)

  /** Division as in C, toward zero. */
  function TDiv(a: int, b: int): (q: int)
    requires b > 0
    ensures a >= 0 ==> q == a / b
  {
    if a >= 0 then a / b else -((-a) / b)
  }

  function TMod(a: int, b: int): (r: int)
    requires b > 0
    ensures a >= 0 ==> r == a % b
  {
    a - b * TDiv(a, b)
  }

  function GetJulianDayNumber(date: Date): (n: int) {
    var a := TDiv(14 - date.month, 12);
    var y := date.year + 4800 - a;
    var m := date.month + 12 * a - 3;
    date.day + TDiv(153 * m + 2, 5) + y * 365 + TDiv(y, 4) - TDiv(y, 100) + TDiv(y, 400) - 32045
  }

  function GetYearMonthDay(julianDayNumber: int): (date: Date) {
    var a := julianDayNumber + 32044;
    var b := TDiv(4 * a + 3, 146097);
    var c := a - TDiv(b * 146097, 4);
    var d := TDiv(4 * c + 3, 1461);
    var e := c - TDiv(1461 * d, 4);
    var m := TDiv(5 * e + 2, 153);
    Date(b * 100 + d - 4800 + TDiv(m, 10), m + 3 - 12 * TDiv(m, 10), e - TDiv(153 * m + 2, 5) + 1)
  }

  // ---------------------------------------------------------------- the Gregorian calendar

  predicate Leap(year: int) {
    year % 4 == 0 && (year % 100 != 0 || year % 400 == 0)
  }

  function DaysOfMonth(year: int, month: int): (n: int)
    requires 1 <= month <= 12
  {
    if month == 2 then if Leap(year) then 29 else 28
    else if month == 4 || month == 6 || month == 9 || month == 11 then 30
    else 31
  }

  ghost predicate Valid(d: Date) {
    1 <= d.month <= 12 && 1 <= d.day <= DaysOfMonth(d.year, d.month)
  }

  function NextDay(d: Date): (e: Date)
    requires Valid(d)
    ensures Valid(e)
  {
    if d.day < DaysOfMonth(d.year, d.month) then Date(d.year, d.month, d.day + 1)
    else if d.month < 12 then Date(d.year, d.month + 1, 1)
    else Date(d.year + 1, 1, 1)
  }

  /** From 1 March 4801 BC on. */
  ghost predicate InRange(d: Date) {
    d.year > -4800 || (d.year == -4800 && d.month >= 3)
  }

  const FIRST := Date(-4800, 3, 1)

  // ---------------------------------------------------------------- years that start in March

  /** The year, counted from March 4801 BC, and the month, counted from March, that the formulas work with. */
  ghost function ShiftedYear(d: Date): int {
    d.year + 4800 - (if d.month <= 2 then 1 else 0)
  }

  ghost function ShiftedMonth(d: Date): int {
    if d.month <= 2 then d.month + 9 else d.month - 3
  }

  /** Days before a shifted year, before a month of it, and before a day. */
  ghost function YearStart(y: int): int {
    y * 365 + TDiv(y, 4) - TDiv(y, 100) + TDiv(y, 400)
  }

  ghost function DayOfYear(d: Date): int {
    (153 * ShiftedMonth(d) + 2) / 5 + d.day - 1
  }

  lemma JulianIsShifted(d: Date)
    requires Valid(d)
    ensures GetJulianDayNumber(d) == YearStart(ShiftedYear(d)) + DayOfYear(d) - 32044
    ensures ShiftedYear(d) >= 0 <==> InRange(d)
  {
    hide Leap;
  }

  lemma MonthStarts(m: int)
    requires 0 <= m <= 11
    ensures (153 * m + 2) / 5 ==
            [0, 31, 61, 92, 122, 153, 184, 214, 245, 275, 306, 337][m]
  {
  }

  /** Across the end of February the shifted year goes up, by 366 days if the new year is a leap year. */
  lemma YearLength(y: int)
    requires y >= 0
    ensures YearStart(y + 1) == YearStart(y) + (if Leap(y + 1 - 4800) then 366 else 365)
  {
    QuotientStep(y, 4);
    QuotientStep(y, 100);
    QuotientStep(y, 400);
    LeapShift(y + 1);
    Divides(y + 1);
    hide Leap;
  }

  lemma QuotientStep(y: int, k: int)
    requires y >= 0 && k > 1
    ensures (y + 1) / k == y / k + (if (y + 1) % k == 0 then 1 else 0)
  {
    var q, r := y / k, y % k;
    Euclid(y, k);
    if r == k - 1 {
      Times(q, k);
      Quotient(y + 1, q + 1, 0, k);
    } else {
      Quotient(y + 1, q, r + 1, k);
    }
  }

  lemma Euclid(a: int, k: int)
    requires k > 0
    ensures a == (a / k) * k + a % k && 0 <= a % k < k
  {
  }

  lemma Times(q: int, k: int)
    ensures (q + 1) * k == q * k + k
  {
  }

  lemma Product(a: nat, b: nat)
    ensures a * b >= 0
  {
  }

  lemma Gap(p: int, q: int, k: int)
    requires p < q && k > 0
    ensures p * k + k <= q * k
  {
    Times(p, k);
    Product(q - (p + 1), k);
    assert (q - (p + 1)) * k == q * k - (p + 1) * k;
  }

  lemma Quotient(a: int, q: int, r: int, k: int)
    requires k > 0 && a == q * k + r && 0 <= r < k
    ensures a / k == q && a % k == r
  {
    Euclid(a, k);
    if a / k > q {
      Gap(q, a / k, k);
    } else if a / k < q {
      Gap(a / k, q, k);
    }
  }

  lemma Divides(y: int)
    ensures y % 400 == 0 ==> y % 100 == 0
    ensures y % 100 == 0 ==> y % 4 == 0
  {
    if y % 400 == 0 {
      Quotient(y, 4 * (y / 400), 0, 100);
    }
    if y % 100 == 0 {
      Quotient(y, 25 * (y / 100), 0, 4);
    }
  }

  lemma LeapShift(y: int)
    ensures Leap(y - 4800) <==> y % 4 == 0 && (y % 100 != 0 || y % 400 == 0)
  {
    Euclid(y, 4);
    Euclid(y, 100);
    Euclid(y, 400);
    Quotient(y - 4800, y / 4 - 1200, y % 4, 4);
    Quotient(y - 4800, y / 100 - 48, y % 100, 100);
    Quotient(y - 4800, y / 400 - 12, y % 400, 400);
  }

  /** Before the first year, division toward zero makes the year after a leap year the long one. */
  lemma BackYearLength(y: int)
    requires y < 0
    ensures YearStart(y + 1) == YearStart(y) + (if Leap(y - 4800) then 366 else 365)
  {
    hide Leap;
    BackQuotientStep(y, 4);
    BackQuotientStep(y, 100);
    BackQuotientStep(y, 400);
    LeapShift(y);
    Divides(y);
  }

  lemma BackQuotientStep(y: int, k: int)
    requires y < 0 && k > 1
    ensures TDiv(y + 1, k) == TDiv(y, k) + (if y % k == 0 then 1 else 0)
  {
    var z := -y;
    QuotientStep(z - 1, k);
    NegatedRemainder(y, k);
  }

  lemma NegatedRemainder(y: int, k: int)
    requires k > 1
    ensures y % k == 0 <==> (-y) % k == 0
  {
    Euclid(y, k);
    Euclid(-y, k);
    if y % k == 0 {
      Negated(y / k, k);
      Quotient(-y, -(y / k), 0, k);
    }
    if (-y) % k == 0 {
      Negated((-y) / k, k);
      Quotient(y, -((-y) / k), 0, k);
    }
  }

  lemma Negated(q: int, k: int)
    ensures (-q) * k == -(q * k)
  {
  }

  /** The last day of February. */
  ghost predicate EndsFebruary(d: Date) {
    d.month == 2 && d.day == DaysOfMonth(d.year, 2)
  }

  /** Where the number goes up by one: from the first day on everywhere; before it, not over a February beside a leap day. */
  ghost predicate Advances(d: Date) {
    InRange(d) || !EndsFebruary(d) || (!Leap(d.year) && !Leap(d.year - 1))
  }

  lemma NeverTwoLeaps(year: int)
    ensures !(Leap(year) && Leap(year - 1))
  {
    if Leap(year) {
      Euclid(year, 4);
      Quotient(year - 1, year / 4 - 1, 3, 4);
    }
  }

  /** Successive days have successive numbers, over the ends of months, leap Februaries and centuries, exactly where said. */
  lemma NextDayNumber(d: Date)
    requires Valid(d)
    ensures GetJulianDayNumber(NextDay(d)) == GetJulianDayNumber(d) + 1 <==> Advances(d)
    ensures InRange(d) ==> InRange(NextDay(d))
  {
    hide GetJulianDayNumber, YearStart, Leap;
    var e := NextDay(d);
    JulianIsShifted(d);
    JulianIsShifted(e);
    MonthStarts(ShiftedMonth(d));
    MonthStarts(ShiftedMonth(e));
    if EndsFebruary(d) {
      if InRange(d) {
        YearLength(ShiftedYear(d));
      } else {
        NeverTwoLeaps(d.year);
        BackYearLength(ShiftedYear(d));
      }
    }
  }

  // ---------------------------------------------------------------- decoding

  /** A century is 36524 days and a quarter. */
  lemma Century(b: int, d: int)
    requires 0 <= b && 0 <= d < 100
    ensures YearStart(100 * b + d) == (146097 * b) / 4 + (1461 * d) / 4
  {
    var y := 100 * b + d;
    Euclid(b, 4);
    Euclid(d, 4);
    Quotient(y, b, d, 100);
    Quotient(y, 25 * b + d / 4, d % 4, 4);
    Quotient(y, b / 4, 100 * (b % 4) + d, 400);
    Quotient(146097 * b, 36524 * b + b / 4, b % 4, 4);
    Quotient(1461 * d, 365 * d + d / 4, d % 4, 4);
  }

  /** Day 365 exists only before a leap day of the shifted calendar. */
  lemma LastDay(date: Date)
    requires Valid(date) && InRange(date)
    ensures 0 <= DayOfYear(date) <= 365
    ensures DayOfYear(date) == 365 ==> Leap(ShiftedYear(date) + 1 - 4800)
    ensures ShiftedMonth(date) == (5 * DayOfYear(date) + 2) / 153
  {
    var m := ShiftedMonth(date);
    MonthStarts(m);
    hide Leap;
    Quotient(5 * DayOfYear(date) + 2, m, 5 * DayOfYear(date) + 2 - 153 * m, 153);
  }

  /** The century and the year of the century come out of the division. */
  lemma CenturyOut(b: int, c: int)
    requires 0 <= b && 0 <= c <= 36524 && (c == 36524 ==> b % 4 == 3)
    ensures (4 * ((146097 * b) / 4 + c) + 3) / 146097 == b
  {
    Euclid(b, 4);
    Quotient(146097 * b, 36524 * b + b / 4, b % 4, 4);
    var x := 4 * ((146097 * b) / 4 + c) + 3;
    assert x == 146097 * b + (4 * c + 3 - b % 4);
    Quotient(x, b, 4 * c + 3 - b % 4, 146097);
  }

  lemma YearOut(d: int, e: int)
    requires 0 <= d < 100 && 0 <= e <= 365 && (e == 365 ==> d % 4 == 3)
    ensures (4 * ((1461 * d) / 4 + e) + 3) / 1461 == d
    ensures (1461 * d) / 4 + e <= 36524
    ensures (1461 * d) / 4 + e == 36524 ==> d == 99 && e == 365
  {
    Euclid(d, 4);
    Quotient(1461 * d, 365 * d + d / 4, d % 4, 4);
    var x := 4 * ((1461 * d) / 4 + e) + 3;
    assert x == 1461 * d + (4 * e + 3 - d % 4);
    Quotient(x, d, 4 * e + 3 - d % 4, 1461);
  }

  /** When day 365 falls into shifted year 100b + d. */
  lemma LeapYears(b: int, d: int)
    requires 0 <= b && 0 <= d < 100 && Leap(100 * b + d + 1 - 4800)
    ensures d % 4 == 3 && (d == 99 ==> b % 4 == 3)
  {
    var y := 100 * b + d + 1;
    LeapShift(y);
    hide Leap;
    Euclid(y, 4);
    Quotient(d, y / 4 - 25 * b - 1, 3, 4);
    if d == 99 {
      Quotient(y, b + 1, 0, 100);
      Euclid(y, 400);
      Quotient(b, y / 400 - 1, 3, 4);
    }
  }

  lemma Decodes(date: Date)
    requires Valid(date) && InRange(date)
    ensures GetYearMonthDay(GetJulianDayNumber(date)) == date && GetJulianDayNumber(date) >= -32044
  {
    hide GetJulianDayNumber, GetYearMonthDay, YearStart, Leap, TDiv;
    var y, e, m := ShiftedYear(date), DayOfYear(date), ShiftedMonth(date);
    JulianIsShifted(date);
    LastDay(date);
    var b, d := y / 100, y % 100;
    Euclid(y, 100);
    Century(b, d);
    if e == 365 {
      LeapYears(b, d);
    }
    YearOut(d, e);
    CenturyOut(b, (1461 * d) / 4 + e);
    Assemble(date, b, d, e, m);
  }

  lemma Assemble(date: Date, b: int, d: int, e: int, m: int)
    requires Valid(date) && ShiftedYear(date) == 100 * b + d && e == DayOfYear(date) && m == ShiftedMonth(date)
    requires 0 <= b && 0 <= d && 0 <= e && 0 <= m <= 11 && m == (5 * e + 2) / 153
    requires (4 * ((1461 * d) / 4 + e) + 3) / 1461 == d
    requires (4 * ((146097 * b) / 4 + ((1461 * d) / 4 + e)) + 3) / 146097 == b
    ensures GetYearMonthDay((146097 * b) / 4 + (1461 * d) / 4 + e - 32044) == date
  {
    hide Leap, TDiv;
    var a := (146097 * b) / 4 + (1461 * d) / 4 + e;
    assert (1461 * d) / 4 >= 0 && (146097 * b) / 4 >= 0;
    assert TDiv(4 * a + 3, 146097) == b;
    assert TDiv(b * 146097, 4) == (146097 * b) / 4;
    assert TDiv(4 * ((1461 * d) / 4 + e) + 3, 1461) == d;
  }

  // ---------------------------------------------------------------- every day number has a date

  /** The date of a day number, found by counting days from the first. */
  ghost function Counted(n: int): (d: Date)
    requires n >= -32044
    ensures Valid(d)
    decreases n + 32044
  {
    if n == -32044 then FIRST else NextDay(Counted(n - 1))
  }

  lemma {:induction false} CountedNumber(n: int)
    requires n >= -32044
    ensures InRange(Counted(n)) && GetJulianDayNumber(Counted(n)) == n
    decreases n + 32044
  {
    hide GetJulianDayNumber, NextDay;
    if n == -32044 {
      FirstNumber();
    } else {
      CountedNumber(n - 1);
      NextDayNumber(Counted(n - 1));
    }
  }

  lemma FirstNumber()
    ensures GetJulianDayNumber(FIRST) == -32044 && InRange(FIRST)
  {
  }

  /** For every day number from the first on, decoding gives the date reached by counting, and its number again. */
  lemma NumberRoundTrip(n: int)
    requires n >= -32044
    ensures GetYearMonthDay(n) == Counted(n) && Valid(GetYearMonthDay(n)) && GetJulianDayNumber(GetYearMonthDay(n)) == n
  {
    hide GetJulianDayNumber, GetYearMonthDay, Counted;
    CountedNumber(n);
    Decodes(Counted(n));
  }

  /** Decoding gives a date exactly from the first day on; below, division toward zero leaves day 0 or less. */
  lemma ValidExactly(n: int)
    ensures Valid(GetYearMonthDay(n)) <==> n >= -32044
  {
    hide GetYearMonthDay;
    if n >= -32044 {
      NumberRoundTrip(n);
    } else {
      BelowFirst(n);
    }
  }

  /** Reading back the number of a valid date gives the date exactly from the first day on. */
  lemma DateRoundTrip(date: Date)
    requires Valid(date)
    ensures GetYearMonthDay(GetJulianDayNumber(date)) == date <==> InRange(date)
  {
    hide GetYearMonthDay, GetJulianDayNumber, Counted, Leap;
    var n := GetJulianDayNumber(date);
    if InRange(date) {
      Decodes(date);
    } else if n >= -32044 {
      CountedNumber(n);
      NumberRoundTrip(n);
    } else {
      BelowFirst(n);
    }
  }

  /** The one valid date outside the range whose number is not below that of the first day. */
  const LEAP_DAY := Date(-4800, 2, 29)

  lemma OutsideNumber(date: Date)
    requires Valid(date) && !InRange(date)
    ensures GetJulianDayNumber(date) >= -32044 <==> date == LEAP_DAY
  {
    hide GetJulianDayNumber, Leap;
    JulianIsShifted(date);
    MonthStarts(ShiftedMonth(date));
    var y := ShiftedYear(date);
    Leaps(-y);
    LeapDay();
  }

  /** Leap days are never negatively many. */
  lemma Leaps(z: int)
    requires z > 0
    ensures z / 4 - z / 100 + z / 400 >= 0
  {
    Euclid(z, 4);
    Euclid(z, 100);
    Euclid(z, 400);
  }

  /** 29 February 4801 BC has the number of the day after it, and so is read back as that day. */
  lemma LeapDay()
    ensures Valid(LEAP_DAY) && !InRange(LEAP_DAY) && NextDay(LEAP_DAY) == FIRST
    ensures GetJulianDayNumber(LEAP_DAY) == -32044 == GetJulianDayNumber(FIRST)
    ensures GetYearMonthDay(GetJulianDayNumber(LEAP_DAY)) == FIRST
  {
    hide GetYearMonthDay, GetJulianDayNumber;
    FirstNumber();
    LeapDayNumber();
    Decodes(FIRST);
  }

  lemma LeapDayNumber()
    ensures GetJulianDayNumber(LEAP_DAY) == -32044
  {
  }

  /** Among the valid dates with a number from -32044 on, the number goes up by one over the next day exactly within the range. */
  lemma NextDayInRange(d: Date)
    requires Valid(d) && GetJulianDayNumber(d) >= -32044
    ensures GetJulianDayNumber(NextDay(d)) == GetJulianDayNumber(d) + 1 <==> InRange(d)
  {
    hide GetJulianDayNumber, GetYearMonthDay;
    NextDayNumber(d);
    if !InRange(d) {
      OutsideNumber(d);
      LeapDay();
    }
  }

  /** Toward zero from below: the quotient of a negative number, scaled back, is not below it. */
  lemma Toward(x: int, k: int)
    requires x <= 0 && k > 0
    ensures TDiv(x, k) <= 0 && TDiv(x, k) * k >= x
  {
    Euclid(-x, k);
  }

  lemma BelowFirst(n: int)
    requires n < -32044
    ensures GetYearMonthDay(n).day <= 0
  {
    hide TDiv;
    var a := n + 32044;
    var b := TDiv(4 * a + 3, 146097);
    Toward(4 * a + 3, 146097);
    Toward(b * 146097, 4);
    var c := a - TDiv(b * 146097, 4);
    assert c < 0;
    var d := TDiv(4 * c + 3, 1461);
    Toward(4 * c + 3, 1461);
    Toward(1461 * d, 4);
    var e := c - TDiv(1461 * d, 4);
    assert e < 0;
    var m := TDiv(5 * e + 2, 153);
    Toward(5 * e + 2, 153);
    if m < 0 {
      Toward(153 * m + 2, 5);
    }
  }

  // ---------------------------------------------------------------- days of the week and of the year

  const K_DAYS_PER_WEEK := 7

  function WeekDay(julianDayNumber: int): (w: int) {
    TMod(julianDayNumber + 1, K_DAYS_PER_WEEK)
  }

  /** 0 to 6 from Sunday, counted from Thursday, 1 January 1970; before day number -1 the remainder is not positive. */
  lemma WeekDayCounts(days: int)
    ensures var w := WeekDay(days + Epoch());
      if days + Epoch() >= -1 then w == (4 + days) % 7
      else w == (if (4 + days) % 7 == 0 then 0 else (4 + days) % 7 - 7)
  {
    var n := days + Epoch() + 1;
    Euclid(4 + days, 7);
    Quotient(n, (4 + days) / 7 + 348655, (4 + days) % 7, 7);
    if n < 0 {
      Euclid(-n, 7);
      if (4 + days) % 7 == 0 {
        Quotient(-n, -(n / 7), 0, 7);
      } else {
        Quotient(-n, -(n / 7) - 1, 7 - n % 7, 7);
      }
    }
  }

  /** Days of the year before a month, by the calendar. */
  ghost function DaysBefore(year: int, month: int): (n: int)
    requires 1 <= month <= 12
  {
    if month == 1 then 0 else DaysBefore(year, month - 1) + DaysOfMonth(year, month - 1)
  }

  function DayOfTheYear(date: Date): (n: int) {
    GetJulianDayNumber(date) - GetJulianDayNumber(Date(date.year, 1, 1))
  }

  /** The day of the year, counted from 0; one too low in the first year of the range, whose January is outside it. */
  lemma YearDayCounts(date: Date)
    requires Valid(date) && InRange(date)
    ensures DayOfTheYear(date) == DaysBefore(date.year, date.month) + date.day - 1 - (if date.year == -4800 then 1 else 0)
  {
    hide GetJulianDayNumber, YearStart, Leap, DaysBefore, ShiftedYear;
    var january := Date(date.year, 1, 1);
    JulianIsShifted(date);
    JulianIsShifted(january);
    MonthSums(date.year, date.month);
    DayFromJanuary(date);
    ShiftedSteps(date);
  }

  /** From January on within the year that starts in March. */
  lemma DayFromJanuary(date: Date)
    requires Valid(date)
    ensures DayOfYear(Date(date.year, 1, 1)) == 306
    ensures DayOfYear(date) == date.day - 1 + (if date.month <= 2 then 306 else -59)
            + [0, 31, 59, 90, 120, 151, 181, 212, 243, 273, 304, 334][date.month - 1]
  {
    hide Leap;
    MonthStarts(ShiftedMonth(date));
    MonthStarts(10);
  }

  lemma ShiftedSteps(date: Date)
    requires Valid(date) && InRange(date)
    ensures YearStart(ShiftedYear(date)) - YearStart(ShiftedYear(Date(date.year, 1, 1))) ==
            if date.month <= 2 then 0 else if Leap(date.year) && date.year > -4800 then 366 else 365
    ensures date.year == -4800 ==> Leap(date.year)
  {
    hide YearStart, Leap;
    FirstYears();
    if date.month > 2 && date.year > -4800 {
      YearLength(date.year + 4799);
    }
  }

  lemma FirstYears()
    ensures YearStart(0) == 0 && YearStart(-1) == -365 && Leap(-4800)
  {
  }

  lemma MonthSums(year: int, month: int)
    requires 1 <= month <= 12
    ensures DaysBefore(year, month) ==
            [0, 31, 59, 90, 120, 151, 181, 212, 243, 273, 304, 334][month - 1] + (if month > 2 && Leap(year) then 1 else 0)
  {
    hide Leap;
    if month > 1 {
      MonthSums(year, month - 1);
    }
  }

  // ---------------------------------------------------------------- UTC

  const SECONDS_PER_DAY := 24 * 60 * 60

  /** struct tm, without the zone. */
  class Tm {
    var year: int
    var mon: int
    var mday: int
    var hour: int
    var min: int
    var sec: int
    var wday: int
    var yday: int

    constructor ()
      ensures yday == 0
    {
      year, mon, mday, hour, min, sec := 0, 0, 0, 0, 0, 0;
      wday, yday := 0, 0;
    }

    method FillHMS(seconds: int)
      requires 0 <= seconds < 0x1_0000_0000
      modifies this`hour, this`min, this`sec
      ensures 0 <= hour && 0 <= min < 60 && 0 <= sec < 60 && hour * 3600 + min * 60 + sec == seconds
      ensures hour < 24 <==> seconds < 86400
    {
      sec := seconds % 60;
      var minutes := seconds / 60;
      min := minutes % 60;
      hour := minutes / 60;
    }
  }

  function Epoch(): (n: int)
    ensures n == 2440588
  {
    GetJulianDayNumber(Date(1970, 1, 1))
  }

  /** Broken-down UTC: the date is the day the second falls on, also before 1970, with the day of the week and, if wanted, of the year. */
  method ToUtcTime(secondsSinceEpoch: int, yday: bool) returns (utc: Tm)
    ensures fresh(utc) && 0 <= utc.hour < 24 && 0 <= utc.min < 60 && 0 <= utc.sec < 60
    ensures utc.hour * 3600 + utc.min * 60 + utc.sec == secondsSinceEpoch % 86400
    ensures Date(utc.year + 1900, utc.mon + 1, utc.mday) == GetYearMonthDay(secondsSinceEpoch / 86400 + Epoch())
    ensures utc.wday == WeekDay(secondsSinceEpoch / 86400 + Epoch())
    ensures secondsSinceEpoch / 86400 + Epoch() >= -1 ==> utc.wday == (4 + secondsSinceEpoch / 86400) % 7
    ensures !yday ==> utc.yday == 0
    ensures yday && secondsSinceEpoch / 86400 + Epoch() >= -32044 ==>
      && 1 <= utc.mon + 1 <= 12
      && utc.yday == DaysBefore(utc.year + 1900, utc.mon + 1) + utc.mday - 1 - (if utc.year + 1900 == -4800 then 1 else 0)
  {
    hide GetYearMonthDay, GetJulianDayNumber, WeekDay, DaysBefore;
    utc := new Tm();
    var seconds := TMod(secondsSinceEpoch, SECONDS_PER_DAY);
    var days := TDiv(secondsSinceEpoch, SECONDS_PER_DAY);
    if seconds < 0 {
      seconds := seconds + SECONDS_PER_DAY;
      days := days - 1;
    }
    FloorDay(secondsSinceEpoch);
    utc.FillHMS(seconds);
    var date := GetYearMonthDay(days + Epoch());
    utc.year := date.year - 1900;
    utc.mon := date.month - 1;
    utc.mday := date.day;
    utc.wday := WeekDay(days + Epoch());
    WeekDayCounts(days);
    if yday {
      utc.yday := days + Epoch() - GetJulianDayNumber(Date(date.year, 1, 1));
      if days + Epoch() >= -32044 {
        YearDayOf(days + Epoch());
      }
    }
  }

  lemma YearDayOf(n: int)
    requires n >= -32044
    ensures var date := GetYearMonthDay(n);
      && Valid(date)
      && n - GetJulianDayNumber(Date(date.year, 1, 1)) ==
         DaysBefore(date.year, date.month) + date.day - 1 - (if date.year == -4800 then 1 else 0)
  {
    hide GetYearMonthDay, GetJulianDayNumber, DaysBefore, Counted;
    NumberRoundTrip(n);
    CountedNumber(n);
    YearDayCounts(GetYearMonthDay(n));
  }

  /** Truncated remainder and quotient, corrected, are the floor ones. */
  lemma FloorDay(t: int)
    ensures var r, q := TMod(t, 86400), TDiv(t, 86400);
      if r < 0 then r + 86400 == t % 86400 && q - 1 == t / 86400
      else r == t % 86400 && q == t / 86400
  {
    if t < 0 {
      Euclid(-t, SECONDS_PER_DAY);
      var q, r := (-t) / SECONDS_PER_DAY, (-t) % SECONDS_PER_DAY;
      if r == 0 {
        Quotient(t, -q, 0, SECONDS_PER_DAY);
      } else {
        Quotient(t, -q - 1, SECONDS_PER_DAY - r, SECONDS_PER_DAY);
      }
    }
  }

  function FromUtcTime(year: int, month: int, day: int, hour: int, minute: int, seconds: int): (t: int) {
    (GetJulianDayNumber(Date(year, month, day)) - Epoch()) * SECONDS_PER_DAY + (hour * 3600 + minute * 60 + seconds)
  }

  /** Every second from the first day on survives the trip through broken-down time, and comes back as a valid date. */
  method UtcRoundTrip(t: int) returns (back: int)
    requires t >= (-32044 - Epoch()) * 86400
    ensures back == t
  {
    hide GetYearMonthDay, GetJulianDayNumber;
    var utc := ToUtcTime(t, false);
    Euclid(t, SECONDS_PER_DAY);
    NumberRoundTrip(t / SECONDS_PER_DAY + Epoch());
    back := FromUtcTime(utc.year + 1900, utc.mon + 1, utc.mday, utc.hour, utc.min, utc.sec);
  }

  /** The other way, for every valid time of day on a valid date: the date comes back exactly within the range. */
  lemma TimeRoundTrip(date: Date, hour: int, minute: int, second: int)
    requires Valid(date) && 0 <= hour < 24 && 0 <= minute < 60 && 0 <= second < 60
    ensures var t := FromUtcTime(date.year, date.month, date.day, hour, minute, second);
      && (GetYearMonthDay(t / 86400 + Epoch()) == date <==> InRange(date))
      && t % 86400 == hour * 3600 + minute * 60 + second
  {
    hide GetYearMonthDay, GetJulianDayNumber;
    DateRoundTrip(date);
    var q := GetJulianDayNumber(date) - Epoch();
    var r := hour * 3600 + minute * 60 + second;
    Quotient(q * SECONDS_PER_DAY + r, q, r, SECONDS_PER_DAY);
  }
}
