/**
 Dates that fix the conversion in the calendar: 1 Farvardin of the first year of each stretch, the reference points of
 the repository's own tests (backend/tests/test_jalali.py:17-30), and the instant at which the current year turns.
 */
module JalaliLandmarks {
  import opened Wrappers
  import opened Truncation
  import opened Jalali
  import opened JalaliCalendar
  import opened JalaliConversion
  import Gregorian

  /** The leap years counted by `leap_j` when a stretch begins. */
  function LeapsBefore(i: nat): (count: int)
    requires i + 1 < BREAKS
    ensures i == 0 ==> count == -14
  {
    match i
    case 0 => -14
    case 1 => 3
    case 2 => 10
    case 3 => 49
    case 4 => 104
    case 5 => 167
    case 6 => 184
    case 7 => 199
    case 8 => 270
    case 9 => 287
    case 10 => 294
    case 11 => 397
    case 12 => 500
    case 13 => 509
    case 14 => 532
    case 15 => 549
    case 16 => 564
    case 17 => 581
    case _ => 596
  }

  lemma {:induction false} LeapsBeforeAre(i: nat)
    requires i + 1 < BREAKS
    ensures LeapBefore(Div, i) == LeapsBefore(i)
  {
    hide Break, LeapBefore, LeapsBefore;
    if i == 0 {
      WalkStart(Div);
    } else {
      LeapsBeforeAre(i - 1);
      EnterSegment(i - 1);
      OneStretch(i - 1);
    }
  }

  lemma OneStretch(i: nat)
    requires i + 2 < BREAKS
    ensures LeapsBefore(i + 1) == LeapsBefore(i) + Jump(i) / 33 * 8 + Jump(i) % 33 / 4
  {
  }

  lemma StretchBegins(i: nat)
    requires i + 1 < BREAKS
    ensures Supported(Break(i)) && LeapCount(Break(i)) == LeapsBefore(i)
  {
    hide Break, LeapBefore, LeapsBefore, LeapCount;
    SegmentLengths(i);
    YearInSegment(Break(i), i);
    LeapsBeforeAre(i);
    FirstOffset(Jump(i));
  }

  lemma FirstOffset(jump: int)
    requires SegmentLength(jump)
    ensures Offset(jump, 0) == 0
  {
  }

  /** The day number of 1 Farvardin, from the leap years before it. */
  lemma NewYearFromCount(jy: int)
    requires Supported(jy)
    ensures NewYear(jy) == 365 * jy + LeapCount(jy) + 1947953
  {
    hide G2d, LeapCount, March, LeapYear;
    MarchIsLinear(jy);
    MarchAgreesWithLeap(jy);
  }

  /** A date converts to the Jalali date with the same count of days. */
  lemma ConvertsTo(g: Date, d: Date)
    requires IsPythonDate(g) && IsJalali(d) && EPOCH < Gregorian.DayNumber(g) <= LAST_DAY + 1
    requires DayOf(d) == Gregorian.DayNumber(g) - 1
    ensures GregorianToJalali(AS_WRITTEN, g) == Success(d)
  {
    hide GregorianToJalali, LeapYear, NewYear, Gregorian.DayNumber, IsJalali, DayOf;
    ConversionKeepsTheDay(g);
    DayOfIsInjective(d, GregorianToJalali(AS_WRITTEN, g).value);
  }

  lemma FirstOfYear(jy: int)
    requires Supported(jy)
    ensures IsJalali(Date(jy, 1, 1)) && DayOf(Date(jy, 1, 1)) == NewYear(jy)
  {
    hide LeapYear, NewYear;
  }

  lemma DayInMarchIs(gy: int, day: int)
    requires 560 <= gy <= 3798 && 1 <= day <= 31
    ensures IsPythonDate(Date(gy, 3, day)) && EPOCH - 31 < Gregorian.DayNumber(Date(gy, 3, day)) <= LAST_DAY
  {
    hide Gregorian.DayNumber;
    LandmarkDays();
    Gregorian.BeforeIsOrder(Date(gy, 3, day), Date(END_YEAR + 620, 12, 31));
    Gregorian.BeforeIsOrder(Date(560, 1, 1), Date(gy, 3, day));
    MarchAfterJanuary(gy, day);
  }

  lemma MarchAfterJanuary(gy: int, day: int)
    requires 560 <= gy && 1 <= day <= 31
    ensures Gregorian.DayNumber(Date(gy, 3, day)) > EPOCH - 31
  {
    hide Gregorian.YearStart;
    DayInMarch(gy, day);
    StartsIncrease(gy);
    StartOf560();
  }

  lemma StartOf560()
    ensures Gregorian.YearStart(100660) - 34839656 == EPOCH - 19
  {
  }

  lemma {:induction false} StartsIncrease(gy: int)
    requires gy >= 560
    ensures Gregorian.YearStart(gy + 100100) >= Gregorian.YearStart(100660)
    decreases gy
  {
    hide Gregorian.YearStart;
    if gy > 560 {
      StartsIncrease(gy - 1);
      Gregorian.MarchYearLength(gy);
    }
  }

  lemma BreakYearBegins(i: nat, jy: int, day: int)
    requires i + 1 < BREAKS && Break(i) == jy && 20 <= day <= 21
    requires 365 * jy + LeapsBefore(i) + 1947954 == Gregorian.YearStart(jy + 100721) + day - 34839656
    ensures GregorianToJalali(AS_WRITTEN, Date(jy + 621, 3, day)) == Success(Date(jy, 1, 1))
  {
    hide Break, LeapsBefore, LeapCount, NewYear, Gregorian.YearStart, Gregorian.DayNumber, GregorianToJalali, DayOf, LeapYear;
    StretchBegins(i);
    NewYearFromCount(jy);
    FirstOfYear(jy);
    DayInMarchIs(jy + 621, day);
    DayInMarch(jy + 621, day);
    NewYearIsConverted(jy);
    ConvertsTo(Date(jy + 621, 3, day), Date(jy, 1, 1));
  }

  /** 1 Farvardin of the first year of each stretch of the break table. */
  lemma StretchesBeginOn()
    ensures GregorianToJalali(AS_WRITTEN, Date(560, 3, 20)) == Success(Date(-61, 1, 1))
    ensures GregorianToJalali(AS_WRITTEN, Date(630, 3, 21)) == Success(Date(9, 1, 1))
    ensures GregorianToJalali(AS_WRITTEN, Date(659, 3, 21)) == Success(Date(38, 1, 1))
    ensures GregorianToJalali(AS_WRITTEN, Date(820, 3, 20)) == Success(Date(199, 1, 1))
    ensures GregorianToJalali(AS_WRITTEN, Date(1047, 3, 21)) == Success(Date(426, 1, 1))
    ensures GregorianToJalali(AS_WRITTEN, Date(1307, 3, 21)) == Success(Date(686, 1, 1))
    ensures GregorianToJalali(AS_WRITTEN, Date(1377, 3, 20)) == Success(Date(756, 1, 1))
    ensures GregorianToJalali(AS_WRITTEN, Date(1439, 3, 21)) == Success(Date(818, 1, 1))
    ensures GregorianToJalali(AS_WRITTEN, Date(1732, 3, 20)) == Success(Date(1111, 1, 1))
    ensures GregorianToJalali(AS_WRITTEN, Date(1802, 3, 21)) == Success(Date(1181, 1, 1))
    ensures GregorianToJalali(AS_WRITTEN, Date(1831, 3, 21)) == Success(Date(1210, 1, 1))
    ensures GregorianToJalali(AS_WRITTEN, Date(2256, 3, 20)) == Success(Date(1635, 1, 1))
    ensures GregorianToJalali(AS_WRITTEN, Date(2681, 3, 20)) == Success(Date(2060, 1, 1))
    ensures GregorianToJalali(AS_WRITTEN, Date(2718, 3, 21)) == Success(Date(2097, 1, 1))
    ensures GregorianToJalali(AS_WRITTEN, Date(2813, 3, 20)) == Success(Date(2192, 1, 1))
    ensures GregorianToJalali(AS_WRITTEN, Date(2883, 3, 20)) == Success(Date(2262, 1, 1))
    ensures GregorianToJalali(AS_WRITTEN, Date(2945, 3, 20)) == Success(Date(2324, 1, 1))
    ensures GregorianToJalali(AS_WRITTEN, Date(3015, 3, 21)) == Success(Date(2394, 1, 1))
    ensures GregorianToJalali(AS_WRITTEN, Date(3077, 3, 20)) == Success(Date(2456, 1, 1))
  {
    hide GregorianToJalali;
    BreakYearBegins(0, -61, 20);
    BreakYearBegins(1, 9, 21);
    BreakYearBegins(2, 38, 21);
    BreakYearBegins(3, 199, 20);
    BreakYearBegins(4, 426, 21);
    BreakYearBegins(5, 686, 21);
    BreakYearBegins(6, 756, 20);
    BreakYearBegins(7, 818, 21);
    BreakYearBegins(8, 1111, 20);
    BreakYearBegins(9, 1181, 21);
    BreakYearBegins(10, 1210, 21);
    BreakYearBegins(11, 1635, 20);
    BreakYearBegins(12, 2060, 20);
    BreakYearBegins(13, 2097, 21);
    BreakYearBegins(14, 2192, 20);
    BreakYearBegins(15, 2262, 20);
    BreakYearBegins(16, 2324, 20);
    BreakYearBegins(17, 2394, 21);
    BreakYearBegins(18, 2456, 20);
  }

  // ------------------------------------------------------------------------------ years in use

  /** 1 Farvardin of the years from 1210 to 1634. */
  lemma NewYearSince1210(jy: int)
    requires 1210 <= jy < 1635
    ensures Supported(jy) && NewYear(jy) == 365 * jy + 1948247 + Offset(425, jy - 1210)
  {
    hide LeapBefore, LeapCount, NewYear, Offset;
    YearInSegment(jy, 10);
    LeapsBeforeAre(10);
    NewYearFromCount(jy);
  }

  lemma ReferencePoint(g: Date, d: Date)
    requires Gregorian.IsDate(g) && 1210 <= g.year <= 3000 && IsJalali(d) && 1210 <= d.year < 1635
    requires Gregorian.DayNumber(g) == 365 * d.year + 1948247 + Offset(425, d.year - 1210) + DaysBefore(d.year, d.month) + d.day
    ensures GregorianToJalali(AS_WRITTEN, g) == Success(d)
  {
    hide GregorianToJalali, LeapYear, NewYear, Gregorian.DayNumber, DaysBefore, Offset;
    NewYearSince1210(d.year);
    LandmarkDays();
    Gregorian.BeforeIsOrder(Date(560, 1, 1), g);
    Gregorian.BeforeIsOrder(g, Date(END_YEAR + 620, 12, 31));
    NewYearIsBounded(d.year);
    DayIsInYear(d);
    ConvertsTo(g, d);
  }

  lemma PointIs(g: Date, d: Date, start: int, leaps: int)
    requires Gregorian.IsDate(g) && 1210 <= g.year <= 3000 && 1210 <= d.year < 1635 && 1 <= d.month <= 12 && 1 <= d.day
    requires d.day <= 29 || (d.day == 30 && LeapYear(d.year))
    requires start == Gregorian.YearStart(Gregorian.MarchYear(g)) && leaps == Offset(425, d.year - 1210)
    requires start + Gregorian.DaysBefore(g.month) + g.day - 34839656 ==
             365 * d.year + 1948247 + leaps + d.day + if d.month <= 7 then 31 * (d.month - 1) else 30 * d.month - 24
    ensures GregorianToJalali(AS_WRITTEN, g) == Success(d)
  {
    hide GregorianToJalali, LeapYear, Offset, Gregorian.YearStart, Gregorian.MarchYear;
    DaysBeforeClosed(d.year, d.month);
    ReferencePoint(g, d);
  }

  lemma RecentStarts()
    ensures Gregorian.YearStart(102078) == 37283224
    ensures Gregorian.YearStart(102099) == 37290894
    ensures Gregorian.YearStart(102121) == 37298930
    ensures Gregorian.YearStart(102124) == 37300026
    ensures Gregorian.YearStart(102125) == 37300391
    ensures Gregorian.YearStart(102126) == 37300756
  {
  }

  lemma RecentLeaps()
    ensures Offset(425, 147) == 36
    ensures Offset(425, 168) == 41
    ensures Offset(425, 190) == 47
    ensures Offset(425, 193) == 47
    ensures Offset(425, 194) == 48
    ensures Offset(425, 195) == 48
  {
  }

  /** 1 Farvardin in recent years. */
  lemma NewYearPoints()
    ensures GregorianToJalali(AS_WRITTEN, Date(2026, 3, 21)) == Success(Date(1405, 1, 1))
    ensures GregorianToJalali(AS_WRITTEN, Date(2025, 3, 21)) == Success(Date(1404, 1, 1))
    ensures GregorianToJalali(AS_WRITTEN, Date(2024, 3, 20)) == Success(Date(1403, 1, 1))
    ensures GregorianToJalali(AS_WRITTEN, Date(2021, 3, 21)) == Success(Date(1400, 1, 1))
  {
    hide GregorianToJalali, LeapYear, Offset, Gregorian.YearStart;
    RecentStarts();
    RecentLeaps();
    PointIs(Date(2026, 3, 21), Date(1405, 1, 1), 37300756, 48);
    PointIs(Date(2025, 3, 21), Date(1404, 1, 1), 37300391, 48);
    PointIs(Date(2024, 3, 20), Date(1403, 1, 1), 37300026, 47);
    PointIs(Date(2021, 3, 21), Date(1400, 1, 1), 37298930, 47);
  }

  lemma Year1403IsLeap()
    ensures LeapYear(1403)
  {
  }

  /** The last day of a common and of a leap year. */
  lemma YearEndPoints()
    ensures GregorianToJalali(AS_WRITTEN, Date(2026, 3, 20)) == Success(Date(1404, 12, 29))
    ensures GregorianToJalali(AS_WRITTEN, Date(2025, 3, 20)) == Success(Date(1403, 12, 30))
  {
    hide GregorianToJalali, LeapYear, Offset, Gregorian.YearStart;
    RecentStarts();
    RecentLeaps();
    Year1403IsLeap();
    PointIs(Date(2026, 3, 20), Date(1404, 12, 29), 37300756, 48);
    PointIs(Date(2025, 3, 20), Date(1403, 12, 30), 37300391, 47);
  }

  /** Days in the middle of a year, and the end of a Gregorian one. */
  lemma MidYearPoints()
    ensures GregorianToJalali(AS_WRITTEN, Date(2000, 1, 1)) == Success(Date(1378, 10, 11))
    ensures GregorianToJalali(AS_WRITTEN, Date(1979, 2, 11)) == Success(Date(1357, 11, 22))
    ensures GregorianToJalali(AS_WRITTEN, Date(2026, 9, 1)) == Success(Date(1405, 6, 10))
    ensures GregorianToJalali(AS_WRITTEN, Date(2026, 12, 31)) == Success(Date(1405, 10, 10))
  {
    hide GregorianToJalali, LeapYear, Offset, Gregorian.YearStart;
    RecentStarts();
    RecentLeaps();
    PointIs(Date(2000, 1, 1), Date(1378, 10, 11), 37290894, 41);
    PointIs(Date(1979, 2, 11), Date(1357, 11, 22), 37283224, 36);
    PointIs(Date(2026, 9, 1), Date(1405, 6, 10), 37300756, 48);
    PointIs(Date(2026, 12, 31), Date(1405, 10, 10), 37300756, 48);
  }

  // ------------------------------------------------------------------------------ when the current year turns

  /** The Tehran date is the day that holds the instant three and a half hours later. */
  lemma TehranDay(now: nat, n: nat)
    requires 86400 * n <= now + (3 * 60 + 30) * 60 < 86400 * (n + 1)
    ensures TehranDate(now) == Gregorian.DateOfDay(n)
  {
    QuotientIs(now + 12600, 86400, n, now + 12600 - 86400 * n);
  }

  /** Seconds from the start of year 1 to the first instant of a Jalali year, at midnight in Tehran. */
  function YearTurns(jy: int): int
    requires FIRST_YEAR <= jy <= END_YEAR
  {
    86400 * (NewYear(jy) - 1721425) - (3 * 60 + 30) * 60
  }

  /** A supported year is the current one exactly from its first midnight in Tehran to the next year's. */
  lemma CurrentYearIsExact(now: nat, jy: int)
    requires Supported(jy) && Supported(jy + 1) && IsPythonDate(TehranDate(now))
    ensures CurrentJalaliYear(now) == Success(jy) <==> YearTurns(jy) <= now < YearTurns(jy + 1)
  {
    hide GregorianToJalali, Gregorian.DayNumber, Gregorian.DateOfDay, NewYear, LeapYear, TehranDate;
    var n := (now + 12600) / 86400;
    TehranDay(now, n);
    Gregorian.DayNumberOfOrdinal(n);
    NewYearIsConverted(jy);
    NewYearIsConverted(jy + 1);
    DateIsInYear(TehranDate(now), jy);
  }

  /** The conversion gives year jy exactly from its 1 Farvardin to the day before the next. */
  lemma DateIsInYear(g: Date, jy: int)
    requires Supported(jy) && Supported(jy + 1) && IsPythonDate(g)
    ensures var r := GregorianToJalali(AS_WRITTEN, g);
            r.Success? && r.value.year == jy <==> NewYear(jy) < Gregorian.DayNumber(g) <= NewYear(jy + 1)
  {
    hide GregorianToJalali, Gregorian.DayNumber, NewYear, LeapYear, DayOf;
    NewYearIsConverted(jy);
    NewYearIsConverted(jy + 1);
    NewYearStep(jy);
    var r := GregorianToJalali(AS_WRITTEN, g);
    if Gregorian.DayNumber(g) <= EPOCH {
      YearBeforeEpoch(g);
    } else if Gregorian.DayNumber(g) <= LAST_DAY + 1 {
      ConversionKeepsTheDay(g);
      DayIsInYear(r.value);
      if r.value.year < jy {
        YearsAreOrdered(r.value.year, jy);
      } else if jy < r.value.year {
        YearsAreOrdered(jy, r.value.year);
      }
    } else if r.Success? {
      LastConvertedDay(g);
    }
  }

  // ------------------------------------------------------------------------------ the edges of the table

  /** The year of the day before, where the conversion starts to look. */
  function GuessedYear(g: Date): int {
    if g.month == 1 && g.day == 1 then g.year - 1 else g.year
  }

  lemma DayBefore(g: Date, p: Date)
    requires Gregorian.IsDate(g) && Gregorian.IsDate(p) && Gregorian.DayNumber(p) == Gregorian.DayNumber(g) - 1
    ensures p.year == GuessedYear(g)
  {
    hide Gregorian.DayNumber;
    Gregorian.NextIsSuccessor(p);
    Gregorian.BeforeIsOrder(Gregorian.Next(p), g);
    Gregorian.BeforeIsOrder(g, Gregorian.Next(p));
  }

  /** A date outside the table is refused with the Jalali year that the day before would begin in. */
  lemma ErrorNamesTheYear(g: Date)
    requires IsPythonDate(g) && GregorianToJalali(AS_WRITTEN, g).Failure?
    ensures GregorianToJalali(AS_WRITTEN, g) == Failure(YearOutOfRange(GuessedYear(g) - 621))
  {
    hide D2g, D2j, Leap, LeapYear, NewYear, FromNewYear, G2d, Gregorian.DayNumber;
    Gregorian.G2dIsDayNumber(1, g);
    if g == Date(1, 1, 1) {
      EarliestDate();
    } else {
      DaysFromFirst(g);
      var p := DateOfDayNumber(Gregorian.DayNumber(g) - 1);
      DayBefore(g, p);
      D2jUnfolded(1, Gregorian.DayNumber(g) - 1, p.year);
    }
  }

  /** The dates of 560 before the first supported year are counted back from it, in a year -62 without a leap day. */
  lemma DatesBeforeTheTable(g: Date)
    requires IsPythonDate(g) && EPOCH - 78 < Gregorian.DayNumber(g) <= EPOCH
    ensures var back := Gregorian.DayNumber(g) - EPOCH + 178;
            GregorianToJalali(AS_WRITTEN, g) == Success(Date(-62, 7 + back / 30, back % 30 + 1))
  {
    hide D2g, D2j, Leap, LeapYear, NewYear, G2d, Gregorian.DayNumber, Div, Mod;
    var n := Gregorian.DayNumber(g) - 1;
    Gregorian.G2dIsDayNumber(1, g);
    LandmarkDays();
    var p := DateOfDayNumber(n);
    Gregorian.BeforeIsOrder(Date(559, 12, 31), p);
    YearLater();
    Gregorian.BeforeIsOrder(Date(560, 12, 31), p);
    D2jUnfolded(1, n, p.year);
    EpochIsNewYear();
    FirstYearIsLeap();
    Gregorian.DivIsEuclidean(n - EPOCH + 179, 30);
  }
}
