/** What the Gregorian to Jalali conversion promises (lines 82-121), on every date it supports. */
module JalaliConversion {
  import opened Wrappers
  import opened Truncation
  import opened Jalali
  import Gregorian
  import opened JalaliCalendar

  // ------------------------------------------------------------------------------ the calendar, by counting

  function MonthLength(jy: int, m: int): int
    requires Supported(jy)
  {
    if m <= 6 then 31 else if m <= 11 || LeapYear(jy) then 30 else 29
  }

  predicate IsJalali(d: Date) {
    Supported(d.year) && 1 <= d.month <= 12 && 1 <= d.day <= MonthLength(d.year, d.month)
  }

  /** The lengths of the months before m, summed. */
  function DaysBefore(jy: int, m: int): int
    requires Supported(jy) && 1 <= m <= 13
    decreases m
  {
    if m == 1 then 0 else DaysBefore(jy, m - 1) + MonthLength(jy, m - 1)
  }

  /** The day number of a Jalali date: whole years, whole months and days, counted from 1 Farvardin -61. */
  function DayOf(d: Date): int
    requires IsJalali(d)
  {
    NewYear(d.year) + DaysBefore(d.year, d.month) + d.day - 1
  }

  /** The last day number whose `_d2g` year is still supported: 31 December 3798. */
  const LAST_DAY := Gregorian.DayNumber(Date(END_YEAR + 620, 12, 31))

  lemma {:induction false} DaysBeforeClosed(jy: int, m: int)
    requires Supported(jy) && 1 <= m <= 13
    ensures m <= 12 ==> DaysBefore(jy, m) == if m <= 7 then 31 * (m - 1) else 30 * m - 24
    ensures m == 13 ==> DaysBefore(jy, m) == YearLength(jy)
    decreases m
  {
    hide Leap, LeapYear;
    if m > 1 {
      DaysBeforeClosed(jy, m - 1);
    }
  }

  lemma DayIsInYear(d: Date)
    requires IsJalali(d)
    ensures NewYear(d.year) <= DayOf(d) < NewYear(d.year) + YearLength(d.year)
  {
    hide Leap, LeapYear;
    DaysBeforeClosed(d.year, d.month);
  }

  lemma {:induction false} YearsAreOrdered(a: int, b: int)
    requires FIRST_YEAR <= a < b <= END_YEAR
    ensures NewYear(a) + YearLength(a) <= NewYear(b)
    decreases b - a
  {
    hide Leap, LeapYear;
    if a < b - 1 {
      YearsAreOrdered(a, b - 1);
    }
  }

  /** No two dates share a day number. */
  lemma DayOfIsInjective(d: Date, e: Date)
    requires IsJalali(d) && IsJalali(e) && DayOf(d) == DayOf(e)
    ensures d == e
  {
    hide Leap, LeapYear, NewYear;
    DayIsInYear(d);
    DayIsInYear(e);
    if d.year < e.year {
      YearsAreOrdered(d.year, e.year);
    } else if e.year < d.year {
      YearsAreOrdered(e.year, d.year);
    }
    DaysBeforeClosed(d.year, d.month);
    DaysBeforeClosed(e.year, e.month);
  }

  // ------------------------------------------------------------------------------ `_d2j`

  /** Lines 88-97 turn a day offset from a New Year into the date at that offset, in this year or the one before. */
  lemma FromNewYearIsRight(jy: int, k: int)
    requires Supported(jy) && (k >= 0 || Supported(jy - 1)) && -92 <= k <= 322
    ensures var d := FromNewYear(Div, jy, Leap(jy), k);
            IsJalali(d) && DayOf(d) == NewYear(jy) + k && d.year == if k >= 0 then jy else jy - 1
  {
    hide Leap, LeapYear, LeapCount, Div, Mod, NewYear, DayOf, IsJalali;
    if 0 <= k <= 185 {
      Gregorian.DivIsEuclidean(k, 31);
      SpringDay(jy, k);
    } else if k >= 0 {
      Gregorian.DivIsEuclidean(k - 186, 30);
      AutumnDay(jy, k - 186);
    } else {
      LeapStep(jy - 1);
      LeapIsByRule(jy - 1);
      NewYearStep(jy - 1);
      var autumn := k + 179 + if Leap(jy) == 1 then 1 else 0;
      Gregorian.DivIsEuclidean(autumn, 30);
      AutumnDay(jy - 1, autumn);
    }
  }

  lemma SpringDay(jy: int, k: int)
    requires Supported(jy) && 0 <= k <= 185
    ensures var d := Date(jy, 1 + k / 31, k % 31 + 1); IsJalali(d) && DayOf(d) == NewYear(jy) + k
  {
    hide Leap, LeapYear, NewYear;
    DaysBeforeClosed(jy, 1 + k / 31);
  }

  lemma AutumnDay(jy: int, a: int)
    requires Supported(jy) && 0 <= a < YearLength(jy) - 186
    ensures var d := Date(jy, 7 + a / 30, a % 30 + 1); IsJalali(d) && DayOf(d) == NewYear(jy) + 186 + a
  {
    hide Leap, LeapYear, NewYear;
    DaysBeforeClosed(jy, 7 + a / 30);
  }

  lemma NewYearStep(jy: int)
    requires Supported(jy)
    ensures NewYear(jy + 1) == NewYear(jy) + YearLength(jy)
  {
  }

  /** The day before 1 January of y, or any day of y, is close to the Jalali New Year that falls in y. */
  lemma NewYearIsNear(y: int, d: Date, n: int)
    requires Supported(y - 621) && Gregorian.IsDate(d) && d.year == y
    requires n == Gregorian.DayNumber(d) || n == Gregorian.DayNumber(d) - 1
    ensures -92 <= n - NewYear(y - 621) <= 322
  {
    hide Leap, LeapYear, March, NewYear, G2d;
    var jy := y - 621;
    MarchAgreesWithLeap(jy);
    MarchIsInMarch(jy);
    Gregorian.G2dIsDayNumber(1, Date(y, 3, March(jy)));
    DaysFromMarch(d, March(jy));
  }

  lemma DaysFromMarch(d: Date, march: int)
    requires Gregorian.IsDate(d)
    ensures -61 - march <= Gregorian.DayNumber(d) - Gregorian.DayNumber(Date(d.year, 3, march)) <= 306 - march
  {
    hide Gregorian.YearStart;
    var first := Date(d.year, 3, march);
    assert Gregorian.MarchYear(first) == d.year + 100100 && Gregorian.DaysBefore(3) == 0;
    if d.month >= 3 {
      assert Gregorian.MarchYear(d) == d.year + 100100;
      LateMonths(d.month);
    } else {
      assert Gregorian.MarchYear(d) == d.year + 100099;
      Gregorian.MarchYearLength(d.year);
      assert Gregorian.DaysBefore(1) == 306 && Gregorian.DaysBefore(2) == 337;
    }
  }

  lemma LateMonths(m: int)
    requires 3 <= m <= 12
    ensures 0 <= Gregorian.DaysBefore(m) <= 275
  {
  }

  lemma OffsetReachesBack(jy: int, n: int)
    requires Supported(jy) && n >= EPOCH
    ensures n >= NewYear(jy) || Supported(jy - 1)
  {
    hide Leap, LeapYear;
    EpochIsNewYear();
  }

  lemma EpochIsNewYear()
    ensures NewYear(FIRST_YEAR) == EPOCH
  {
  }

  lemma D2jUnfolded(lag: int, n: int, y: int)
    requires D2g(Div, n).year == y
    ensures !Supported(y - 621) ==> D2j(Exact(lag), n) == Failure(YearOutOfRange(y - 621))
    ensures Supported(y - 621) ==>
              D2j(Exact(lag), n) == Success(FromNewYear(Div, y - 621, Leap(y - 621), n - (NewYear(y - 621) + 1 - lag)))
  {
    hide D2g, FromNewYear, JalCal, Leap, LeapYear, March, NewYear, G2d;
    var jy := y - 621;
    JalCalCases(jy);
    if Supported(jy) {
      MarchAgreesWithLeap(jy);
      LagShiftsG2d(lag, y, March(jy));
    }
  }

  lemma LagShiftsG2d(lag: int, y: int, march: int)
    ensures G2d(Exact(lag), y, 3, march) == G2d(AS_WRITTEN, y, 3, march) + 1 - lag
  {
    hide Div, Mod;
  }

  /** Every Gregorian date has a day number and every day number from 1-1-1 has a date. */
  lemma DateOfDayNumber(n: int) returns (g: Date)
    requires n >= 1721426
    ensures Gregorian.IsDate(g) && Gregorian.DayNumber(g) == n && D2g(Div, n) == g
  {
    hide D2g;
    g := Gregorian.DateOfDay(n - 1721426);
    Gregorian.DayNumberOfOrdinal(n - 1721426);
    Gregorian.D2gInvertsDayNumber(g);
  }

  /** The year `_d2g` finds for a day number, as a range of day numbers. */
  lemma YearOfDayNumber(n: int, y: int)
    requires n >= 1721426 && y >= 1
    ensures D2g(Div, n).year <= y <==> n <= Gregorian.DayNumber(Date(y, 12, 31))
  {
    hide D2g;
    var g := DateOfDayNumber(n);
    Gregorian.BeforeIsOrder(Date(y, 12, 31), g);
  }

  lemma LandmarkDays()
    ensures LAST_DAY == 3108616
    ensures Gregorian.DayNumber(Date(560, 1, 1)) == EPOCH - 78
    ensures Gregorian.DayNumber(Date(559, 12, 31)) == EPOCH - 79
  {
    hide Gregorian.DayNumber;
    JanuaryAndDecember(END_YEAR + 620);
    JanuaryAndDecember(560);
    JanuaryAndDecember(559);
  }

  lemma JanuaryAndDecember(y: int)
    ensures Gregorian.DayNumber(Date(y, 1, 1)) == Gregorian.YearStart(y + 100099) + 307 - 34839656
    ensures Gregorian.DayNumber(Date(y, 12, 31)) == Gregorian.YearStart(y + 100100) + 306 - 34839656
  {
    assert Gregorian.DaysBefore(1) == 306 && Gregorian.DaysBefore(12) == 275;
  }

  /** `_d2j` inverts the count of Jalali days, on every day number from 1 Farvardin -61 to the last supported one. */
  lemma D2jInvertsDayOf(n: int)
    requires EPOCH <= n <= LAST_DAY
    ensures var r := D2j(AS_WRITTEN, n); r.Success? && IsJalali(r.value) && DayOf(r.value) == n
  {
    hide D2g, D2j, Leap, LeapYear, NewYear, FromNewYear, DayOf;
    LandmarkDays();
    var g := DateOfDayNumber(n);
    YearOfDayNumber(n, END_YEAR + 620);
    YearOfDayNumber(n, 559);
    D2jUnfolded(1, n, g.year);
    NewYearIsNear(g.year, g, n);
    OffsetReachesBack(g.year - 621, n);
    FromNewYearIsRight(g.year - 621, n - NewYear(g.year - 621));
  }

  /** The count of Jalali days inverts `_d2j`: every Jalali date in the range is hit, by its own day number only. */
  lemma DayOfInvertsD2j(d: Date)
    requires IsJalali(d) && DayOf(d) <= LAST_DAY
    ensures D2j(AS_WRITTEN, DayOf(d)) == Success(d)
  {
    hide D2j, Leap, LeapYear;
    DayIsInYear(d);
    if d.year > FIRST_YEAR {
      YearsAreOrdered(FIRST_YEAR, d.year);
    }
    D2jInvertsDayOf(DayOf(d));
    DayOfIsInjective(d, D2j(AS_WRITTEN, DayOf(d)).value);
  }

  // ------------------------------------------------------------------------------ from Gregorian dates

  /** Python's `date`. */
  predicate IsPythonDate(g: Date) {
    Gregorian.IsDate(g) && g.year <= 9999
  }

  const FIRST_CONVERTED := Date(560, 1, 2)

  const LAST_CONVERTED := Date(3799, 1, 1)

  /** `gregorian_to_jalali` raises exactly outside 560-01-02 .. 3799-01-01; the error names the year it tried. */
  lemma ConversionFailsExactlyOutsideTable(g: Date)
    requires IsPythonDate(g)
    ensures GregorianToJalali(AS_WRITTEN, g).Failure? <==>
            Gregorian.Before(g, FIRST_CONVERTED) || Gregorian.Before(LAST_CONVERTED, g)
  {
    hide D2g, D2j, Leap, LeapYear, NewYear, FromNewYear, G2d;
    Gregorian.G2dIsDayNumber(1, g);
    if g == Date(1, 1, 1) {
      EarliestDate();
    } else {
      var n := Gregorian.DayNumber(g) - 1;
      DaysFromFirst(g);
      var p := DateOfDayNumber(n);
      D2jUnfolded(1, n, p.year);
      YearOfDayNumber(n, END_YEAR + 620);
      YearOfDayNumber(n, 559);
      LandmarkDays();
      Gregorian.BeforeIsOrder(g, FIRST_CONVERTED);
      Gregorian.BeforeIsOrder(LAST_CONVERTED, g);
    }
  }

  lemma DaysFromFirst(g: Date)
    requires Gregorian.IsDate(g) && g != Date(1, 1, 1)
    ensures Gregorian.DayNumber(g) > 1721426
  {
    Gregorian.BeforeIsOrder(Date(1, 1, 1), g);
    Gregorian.DayNumberOfOrdinal(0);
  }

  lemma EarliestDate()
    ensures D2j(AS_WRITTEN, Gregorian.DayNumber(Date(1, 1, 1)) - 1) == Failure(YearOutOfRange(-621))
  {
    hide D2g, D2j;
    DayBeforeYearOne();
    D2jUnfolded(1, 1721425, 0);
  }

  lemma DayBeforeYearOne()
    ensures D2g(Div, 1721425).year == 0
  {
    hide D2g;
    Gregorian.D2gUnfolded(1721425, 100100, 305);
  }

  /** Within the Jalali range the conversion gives the Jalali date of the same day. */
  lemma ConversionKeepsTheDay(g: Date)
    requires IsPythonDate(g)
    requires EPOCH < Gregorian.DayNumber(g) <= LAST_DAY + 1
    ensures var r := GregorianToJalali(AS_WRITTEN, g);
            r.Success? && IsJalali(r.value) && DayOf(r.value) == Gregorian.DayNumber(g) - 1
  {
    hide D2g, D2j, Leap, LeapYear, G2d;
    Gregorian.G2dIsDayNumber(1, g);
    D2jInvertsDayOf(Gregorian.DayNumber(g) - 1);
  }

  /** The calendar goes on after d: it is not the last day of the table. */
  predicate HasNext(d: Date)
    requires IsJalali(d)
  {
    d.month == 12 && d.day == MonthLength(d.year, 12) ==> Supported(d.year + 1)
  }

  /** The next day on the Jalali calendar. */
  function Next(d: Date): (e: Date)
    requires IsJalali(d) && HasNext(d)
    ensures IsJalali(e)
  {
    if d.day < MonthLength(d.year, d.month) then d.(day := d.day + 1)
    else if d.month < 12 then Date(d.year, d.month + 1, 1)
    else Date(d.year + 1, 1, 1)
  }

  lemma NextIsSuccessor(d: Date)
    requires IsJalali(d) && HasNext(d)
    ensures DayOf(Next(d)) == DayOf(d) + 1
  {
    hide Leap, LeapYear;
    DaysBeforeClosed(d.year, 13);
    NewYearStep(d.year);
  }

  /** Consecutive Gregorian dates become consecutive Jalali dates, and the year turns exactly at 1 Farvardin. */
  lemma ConsecutiveDatesStayConsecutive(g: Date)
    requires IsPythonDate(g) && IsPythonDate(Gregorian.Next(g))
    requires EPOCH < Gregorian.DayNumber(g) <= LAST_DAY
    ensures var d, e := GregorianToJalali(AS_WRITTEN, g), GregorianToJalali(AS_WRITTEN, Gregorian.Next(g));
            d.Success? && e.Success? && IsJalali(d.value) && HasNext(d.value) && e.value == Next(d.value) &&
            e.value.year == d.value.year + if e.value.month == 1 && e.value.day == 1 then 1 else 0
  {
    hide Leap, LeapYear, G2d, GregorianToJalali, NewYear, Gregorian.DayNumber;
    Gregorian.NextIsSuccessor(g);
    ConversionKeepsTheDay(g);
    ConversionKeepsTheDay(Gregorian.Next(g));
    var d, e := GregorianToJalali(AS_WRITTEN, g).value, GregorianToJalali(AS_WRITTEN, Gregorian.Next(g)).value;
    TableEndIsNotReached(d);
    NextIsSuccessor(d);
    DayOfIsInjective(Next(d), e);
  }

  lemma TableEndIsNotReached(d: Date)
    requires IsJalali(d) && DayOf(d) < LAST_DAY
    ensures HasNext(d)
  {
    hide Leap, LeapYear, NewYear;
    if d.year == END_YEAR - 1 {
      NewYearIsNear(END_YEAR + 620, Date(END_YEAR + 620, 12, 31), LAST_DAY);
      DaysBeforeClosed(d.year, d.month);
    }
  }

  // ------------------------------------------------------------------------------ the `- 1` of line 66

  /** On every 1 January the file guesses the year before, and the algorithm it follows the year itself. */
  lemma GuessesDifferOnNewYearsDay(y: int)
    requires y >= 2
    ensures D2g(Div, G2d(AS_WRITTEN, y, 1, 1)).year == y - 1 && D2g(Div, G2d(Exact(0), y, 1, 1)).year == y
  {
    hide D2g, G2d, Gregorian.DayNumber;
    var last, first := Date(y - 1, 12, 31), Date(y, 1, 1);
    Gregorian.NextIsSuccessor(last);
    Gregorian.D2gInvertsDayNumber(last);
    Gregorian.D2gInvertsDayNumber(first);
    Gregorian.G2dIsDayNumber(1, first);
    Gregorian.G2dIsDayNumber(0, first);
  }

  /** The `- 1` shifts both of the day numbers that are subtracted, and a wrong first guess is corrected. */
  lemma SubtractionIsHarmless(g: Date)
    requires Gregorian.IsDate(g) && !Gregorian.Before(g, FIRST_CONVERTED) && Gregorian.Before(g, LAST_CONVERTED)
    ensures GregorianToJalali(AS_WRITTEN, g) == GregorianToJalali(Exact(0), g)
  {
    hide D2g, D2j, Leap, LeapYear, NewYear, FromNewYear, G2d, DayOf, IsJalali, Gregorian.DayNumber;
    Gregorian.G2dIsDayNumber(1, g);
    Gregorian.G2dIsDayNumber(0, g);
    Gregorian.D2gInvertsDayNumber(g);
    DaysFromFirst(g);
    var n := Gregorian.DayNumber(g) - 1;
    var p := DateOfDayNumber(n);
    GuessedYears(g, p);
    D2jUnfolded(1, n, p.year);
    D2jUnfolded(0, n + 1, g.year);
    if g.year != p.year {
      NewYearIsNear(g.year, g, n);
      NewYearIsNear(p.year, p, n);
      FromNewYearIsRight(g.year - 621, n - NewYear(g.year - 621));
      OffsetReachesBack(p.year - 621, n);
      FromNewYearIsRight(p.year - 621, n - NewYear(p.year - 621));
      DayOfIsInjective(FromNewYear(Div, g.year - 621, Leap(g.year - 621), n - NewYear(g.year - 621)),
                       FromNewYear(Div, p.year - 621, Leap(p.year - 621), n - NewYear(p.year - 621)));
    }
  }

  /** The two guesses for a convertible date are its year and, on 1 January, the year before. */
  lemma GuessedYears(g: Date, p: Date)
    requires Gregorian.IsDate(g) && !Gregorian.Before(g, FIRST_CONVERTED) && Gregorian.Before(g, LAST_CONVERTED)
    requires Gregorian.IsDate(p) && Gregorian.DayNumber(p) == Gregorian.DayNumber(g) - 1
    ensures Supported(g.year - 621) && Supported(p.year - 621)
    ensures p.year == g.year || (p.year == g.year - 1 && Gregorian.DayNumber(g) - 1 >= EPOCH)
  {
    hide Gregorian.DayNumber;
    Gregorian.BeforeIsOrder(p, g);
    Gregorian.NextIsSuccessor(p);
    Gregorian.BeforeIsOrder(Gregorian.Next(p), g);
    Gregorian.BeforeIsOrder(g, Gregorian.Next(p));
    LandmarkDays();
    Gregorian.BeforeIsOrder(Date(560, 12, 31), g);
    YearLater();
  }

  lemma YearLater()
    ensures Gregorian.DayNumber(Date(560, 12, 31)) >= EPOCH
  {
  }

  // ------------------------------------------------------------------------------ the current year

  /** Tehran civil time is UTC+03:30; `now` counts seconds from the start of year 1. */
  function TehranDate(now: nat): Date {
    Gregorian.DateOfDay((now + 12600) / 86400)
  }

  function CurrentJalaliYear(now: nat): Result<int, Error> {
    match GregorianToJalali(AS_WRITTEN, TehranDate(now))
    case Failure(e) => Failure(e)
    case Success(d) => Success(d.year)
  }

  /** The Jalali year of the dates before the table's first New Year that are converted all the same. */
  lemma YearBeforeEpoch(g: Date)
    requires IsPythonDate(g) && Gregorian.DayNumber(g) <= EPOCH
    ensures var r := GregorianToJalali(AS_WRITTEN, g); r.Success? ==> r.value.year == FIRST_YEAR - 1
  {
    hide D2g, D2j, Leap, LeapYear, NewYear, G2d, Gregorian.DayNumber;
    ConversionFailsExactlyOutsideTable(g);
    if GregorianToJalali(AS_WRITTEN, g).Success? {
      Gregorian.G2dIsDayNumber(1, g);
      DaysFromFirst(g);
      var n := Gregorian.DayNumber(g) - 1;
      var p := DateOfDayNumber(n);
      D2jUnfolded(1, n, p.year);
      YearLater();
      Gregorian.BeforeIsOrder(Date(560, 12, 31), p);
      EpochIsNewYear();
      assert p.year - 621 == FIRST_YEAR;
    }
  }

  /** Later dates have later or equal Jalali years. */
  lemma YearsFollowDates(g: Date, h: Date)
    requires IsPythonDate(g) && IsPythonDate(h) && Gregorian.DayNumber(g) <= Gregorian.DayNumber(h)
    requires GregorianToJalali(AS_WRITTEN, g).Success? && GregorianToJalali(AS_WRITTEN, h).Success?
    ensures GregorianToJalali(AS_WRITTEN, g).value.year <= GregorianToJalali(AS_WRITTEN, h).value.year
  {
    hide GregorianToJalali, Gregorian.DayNumber, NewYear, Leap, LeapYear;
    LastConvertedDay(g);
    LastConvertedDay(h);
    if Gregorian.DayNumber(g) <= EPOCH {
      YearBeforeEpoch(g);
      if Gregorian.DayNumber(h) <= EPOCH {
        YearBeforeEpoch(h);
      } else {
        ConversionKeepsTheDay(h);
      }
    } else {
      ConversionKeepsTheDay(g);
      ConversionKeepsTheDay(h);
      var d, e := GregorianToJalali(AS_WRITTEN, g).value, GregorianToJalali(AS_WRITTEN, h).value;
      DayIsInYear(d);
      DayIsInYear(e);
      if e.year < d.year {
        YearsAreOrdered(e.year, d.year);
      }
    }
  }

  lemma LastConvertedDay(g: Date)
    requires IsPythonDate(g) && GregorianToJalali(AS_WRITTEN, g).Success?
    ensures Gregorian.DayNumber(g) <= LAST_DAY + 1
  {
    hide GregorianToJalali, Gregorian.DayNumber;
    ConversionFailsExactlyOutsideTable(g);
    Gregorian.BeforeIsOrder(LAST_CONVERTED, g);
    Gregorian.NextIsSuccessor(Date(END_YEAR + 620, 12, 31));
  }

  /** The current Jalali year never steps back as the clock moves forward. */
  lemma CurrentYearIsMonotone(t: nat, u: nat)
    requires t <= u && IsPythonDate(TehranDate(t)) && IsPythonDate(TehranDate(u))
    requires CurrentJalaliYear(t).Success? && CurrentJalaliYear(u).Success?
    ensures CurrentJalaliYear(t).value <= CurrentJalaliYear(u).value
  {
    hide GregorianToJalali, Gregorian.DayNumber, Gregorian.DateOfDay;
    Gregorian.DayNumberOfOrdinal((t + 12600) / 86400);
    Gregorian.DayNumberOfOrdinal((u + 12600) / 86400);
    YearsFollowDates(TehranDate(t), TehranDate(u));
  }

  lemma {:induction false} NewYearIsBounded(jy: int)
    requires FIRST_YEAR <= jy <= END_YEAR
    ensures EPOCH <= NewYear(jy) <= EPOCH + 366 * (jy - FIRST_YEAR)
    decreases jy - FIRST_YEAR
  {
    hide Leap, LeapYear;
    if jy > FIRST_YEAR {
      NewYearIsBounded(jy - 1);
    }
  }

  lemma NewYearIsConverted(jy: int)
    requires Supported(jy)
    ensures EPOCH <= NewYear(jy) <= LAST_DAY
  {
    hide G2d, Leap, LeapYear, March, NewYear, Gregorian.DayNumber;
    NewYearIsBounded(jy);
    MarchAgreesWithLeap(jy);
    MarchIsInMarch(jy);
    var first := Date(jy + 621, 3, March(jy));
    Gregorian.G2dIsDayNumber(1, first);
    Gregorian.BeforeIsOrder(first, Date(END_YEAR + 620, 12, 31));
  }

  /** The clock reaches every supported year. */
  lemma EveryYearComes(jy: int) returns (now: nat)
    requires Supported(jy)
    ensures IsPythonDate(TehranDate(now)) && CurrentJalaliYear(now) == Success(jy)
  {
    hide GregorianToJalali, Gregorian.DateOfDay, Gregorian.DayNumber, Leap, LeapYear, NewYear, D2g, DayOf;
    NewYearIsConverted(jy);
    LandmarkDays();
    var n := NewYear(jy) + 1 - 1721426;
    now := 86400 * n;
    assert (now + 12600) / 86400 == n;
    Gregorian.DayNumberOfOrdinal(n);
    var g := TehranDate(now);
    Gregorian.BeforeIsOrder(Date(END_YEAR + 621, 1, 1), g);
    Gregorian.NextIsSuccessor(Date(END_YEAR + 620, 12, 31));
    ConversionKeepsTheDay(g);
    var d := GregorianToJalali(AS_WRITTEN, g).value;
    DayIsInYear(d);
    if d.year < jy {
      YearsAreOrdered(d.year, jy);
    } else if jy < d.year {
      YearsAreOrdered(jy, d.year);
    }
  }
}
