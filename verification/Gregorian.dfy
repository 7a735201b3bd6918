/**
 The civil Gregorian calendar, and its agreement with `_g2d` and `_d2g` (lines 61-79): both count the same days,
 and `_d2g` inverts the count without the `- 1` of line 66.
 */
module Gregorian {
  import opened Truncation
  import opened Jalali

  predicate IsLeap(y: int) {
    y % 4 == 0 && (y % 100 != 0 || y % 400 == 0)
  }

  function MonthLength(y: int, m: int): int {
    if m == 2 then (if IsLeap(y) then 29 else 28)
    else if m == 4 || m == 6 || m == 9 || m == 11 then 30
    else 31
  }

  /** A value of Python's `date`, without its upper limit of year 9999. */
  predicate IsDate(d: Date) {
    1 <= d.year && 1 <= d.month <= 12 && 1 <= d.day <= MonthLength(d.year, d.month)
  }

  function Next(d: Date): (e: Date)
    requires IsDate(d)
    ensures IsDate(e)
  {
    if d.day < MonthLength(d.year, d.month) then d.(day := d.day + 1)
    else if d.month < 12 then Date(d.year, d.month + 1, 1)
    else Date(d.year + 1, 1, 1)
  }

  /** The date n days after 1 January of year 1: the ordinal of Python's `date`, from 0. */
  function DateOfDay(n: nat): (d: Date)
    ensures IsDate(d)
  {
    if n == 0 then Date(1, 1, 1) else Next(DateOfDay(n - 1))
  }

  /** The year that starts on 1 March, numbered from -100100 so that the arithmetic stays positive. */
  function MarchYear(d: Date): int {
    d.year + 100100 - if d.month <= 2 then 1 else 0
  }

  /** Days before the month, in a year that starts in March. */
  function DaysBefore(m: int): int {
    (153 * ((m + 9) % 12) + 2) / 5
  }

  /** Days before March year z. */
  function YearStart(z: int): int {
    1461 * z / 4 - 3 * (z / 100) / 4
  }

  /** `_g2d` without the `- 1`, in Euclidean arithmetic. */
  function DayNumber(d: Date): int {
    YearStart(MarchYear(d)) + DaysBefore(d.month) + d.day - 34839656
  }

  lemma YearShift(m: int)
    requires 1 <= m <= 12
    ensures Div(m - 8, 6) == (if m <= 2 then -1 else 0)
  {
  }

  lemma G2dIsDayNumber(lag: int, d: Date)
    requires 1 <= d.month <= 12 && d.year >= 1
    ensures G2d(Exact(lag), d.year, d.month, d.day) == DayNumber(d) - lag
  {
    hide Div, Mod;
    YearShift(d.month);
    var z := MarchYear(d);
    DivIsEuclidean(z * 1461, 4);
    DivIsEuclidean(d.month + 9, 12);
    DivIsEuclidean(153 * ((d.month + 9) % 12) + 2, 5);
    DivIsEuclidean(z, 100);
    DivIsEuclidean(z / 100 * 3, 4);
  }

  /** Day of the March year, from 0. */
  function DayOfMarchYear(d: Date): int {
    DaysBefore(d.month) + d.day - 1
  }

  lemma MonthsAreContiguous(d: Date)
    requires IsDate(d)
    ensures 0 <= DayOfMarchYear(d) <= 365
    ensures d.month != 2 ==> DaysBefore(if d.month == 12 then 1 else d.month + 1) == DaysBefore(d.month) + MonthLength(d.year, d.month)
    ensures DayOfMarchYear(d) == 365 ==> d.month == 2 && d.day == 29
  {
    assert d.month == 1 || d.month == 2 || d.month == 3 || d.month == 4 || d.month == 5 || d.month == 6 ||
           d.month == 7 || d.month == 8 || d.month == 9 || d.month == 10 || d.month == 11 || d.month == 12;
  }

  /** The March year that ends in February of year y has the length the leap rule gives y. */
  lemma MarchYearLength(y: int)
    requires y >= 1
    ensures YearStart(y + 100100) == YearStart(y + 100099) + if IsLeap(y) then 366 else 365
  {
    FourHundred(y);
    ShiftedCenturies(y);
    FourYears(y + 100099);
    FourCenturies(y / 100);
  }

  lemma ShiftedCenturies(y: int)
    ensures (y + 100100) / 100 == y / 100 + 1001 && (y + 100100) % 4 == y % 4
    ensures (y + 100099) / 100 == if y % 100 == 0 then y / 100 + 1000 else y / 100 + 1001
  {
    var c, r := y / 100, y % 100;
    QuotientIs(y + 100100, 100, c + 1001, r);
    if r == 0 {
      QuotientIs(y + 100099, 100, c + 1000, 99);
    } else {
      QuotientIs(y + 100099, 100, c + 1001, r - 1);
    }
    QuotientIs(y + 100100, 4, y / 4 + 25025, y % 4);
  }

  lemma FourHundred(y: int)
    ensures y % 400 == 0 <==> y % 100 == 0 && y / 100 % 4 == 0
  {
    var c, r := y / 100, y % 100;
    assert y == 400 * (c / 4) + 100 * (c % 4) + r;
  }

  lemma FourYears(z: int)
    ensures 1461 * (z + 1) / 4 - 1461 * z / 4 == if (z + 1) % 4 == 0 then 366 else 365
  {
    var q, r := z / 4, z % 4;
    assert 1461 * z == 4 * (1461 * q + 365 * r) + r;
  }

  lemma FourCenturies(c: int)
    ensures 3 * (c + 1001) / 4 - 3 * (c + 1000) / 4 == if c % 4 == 0 then 0 else 1
  {
    var q, r := c / 4, c % 4;
    assert 3 * (c + 1000) == 4 * (3 * q + 750) + 3 * r;
  }

  /** Counting one day on the civil calendar is counting one day number. */
  lemma NextIsSuccessor(d: Date)
    requires IsDate(d)
    ensures DayNumber(Next(d)) == DayNumber(d) + 1
  {
    MonthsAreContiguous(d);
    if d.day == MonthLength(d.year, d.month) {
      if d.month == 2 {
        MarchYearLength(d.year);
        assert DaysBefore(2) == 337 && DaysBefore(3) == 0;
      }
    }
  }

  /** The day number of an ordinal. */
  lemma {:induction false} DayNumberOfOrdinal(n: nat)
    ensures DayNumber(DateOfDay(n)) == 1721426 + n
  {
    if n == 0 {
      assert DateOfDay(0) == Date(1, 1, 1);
      assert DaysBefore(1) == 306;
    } else {
      DayNumberOfOrdinal(n - 1);
      NextIsSuccessor(DateOfDay(n - 1));
    }
  }

  // ------------------------------------------------------------------------------------ `_d2g`

  /** The remainder of a day within its century, from the remainders of the two divisions by 4. */
  lemma CenturyRest(c: int, y: int, w: int, q: int, e: int, p: int, f: int)
    requires 0 <= y < 100 && 0 <= w <= 365 && 1461 * y == 4 * q + e && 3 * c == 4 * p + f && 0 <= e < 4 && 0 <= f < 4
    requires w == 365 && y == 99 ==> f == 0
    ensures var rest := 1461 * y - e + f + 4 * w;
            0 <= rest < 146097 && 4 * (36525 * c + q - p + w) == 146097 * c + rest
  {
  }

  lemma CenturyOfRest(c: int, y: int, w: int, q: int, e: int, p: int, f: int)
    requires 0 <= y < 100 && 0 <= w <= 365 && 1461 * y == 4 * q + e && 3 * c == 4 * p + f && 0 <= e < 4 && 0 <= f < 4
    requires w == 365 && y == 99 ==> f == 0
    ensures (4 * (36525 * c + q - p + w)) / 146097 == c
  {
    CenturyRest(c, y, w, q, e, p, f);
    var days := 4 * (36525 * c + q - p + w);
    QuotientIs(days, 146097, c, 1461 * y - e + f + 4 * w);
  }

  lemma Quarters(a: int)
    ensures a == 4 * (a / 4) + a % 4 && 0 <= a % 4 < 4
    ensures a % 4 == 0 ==> 3 * a % 4 == 0
  {
  }

  lemma CenturyArithmetic(c: int, y: int, w: int)
    requires 0 <= y < 100 && 0 <= w <= 365 && (w == 365 && y == 99 ==> c % 4 == 0)
    ensures (4 * (36525 * c + 1461 * y / 4 - 3 * c / 4 + w)) / 146097 == c
  {
    Quarters(1461 * y);
    Quarters(3 * c);
    Quarters(c);
    CenturyOfRest(c, y, w, 1461 * y / 4, 1461 * y % 4, 3 * c / 4, 3 * c % 4);
  }

  lemma YearStartInCentury(c: int, y: int)
    requires 0 <= y < 100
    ensures YearStart(100 * c + y) == 36525 * c + 1461 * y / 4 - 3 * c / 4
  {
    QuotientIs(100 * c + y, 100, c, y);
    assert 1461 * (100 * c + y) == 4 * (36525 * c) + 1461 * y;
  }

  /** Only 29 February of a leap century year could overflow its century. */
  lemma LastDayOfCentury(d: Date)
    requires IsDate(d) && DayOfMarchYear(d) == 365
    ensures MarchYear(d) % 4 == 3
    ensures MarchYear(d) % 100 == 99 ==> MarchYear(d) / 100 % 4 == 0
  {
    hide DaysBefore;
    MonthsAreContiguous(d);
    EndOfLeapYear(d.year);
  }

  lemma QuarterShift(y: int)
    requires y % 4 == 0
    ensures (y + 100099) % 4 == 3 && (y + 1000) % 4 == 0
  {
  }

  lemma EndOfLeapYear(y: int)
    requires IsLeap(y)
    ensures (y + 100099) % 4 == 3
    ensures (y + 100099) % 100 == 99 ==> (y + 100099) / 100 % 4 == 0
  {
    QuarterShift(y);
    var c, r := y / 100, y % 100;
    if r == 0 {
      EndOfCentury(y, c);
    } else {
      QuotientIs(y + 100099, 100, c + 1001, r - 1);
    }
  }

  lemma EndOfCentury(y: int, c: int)
    requires y == 100 * c && y % 400 == 0
    ensures (y + 100099) / 100 % 4 == 0
  {
    FourHundred(y);
    QuotientIs(y, 100, c, 0);
    QuotientIs(y + 100099, 100, c + 1000, 99);
    QuarterShift(c);
  }

  /** Line 74 recovers the century of the March year from a day number. */
  lemma CenturyIsRecovered(d: Date)
    requires IsDate(d)
    ensures (4 * DayNumber(d) + 183187720) / 146097 == MarchYear(d) / 100 + 300
  {
    hide YearStart, MarchYear, DaysBefore;
    var z, w := MarchYear(d), DayOfMarchYear(d);
    var c, y := z / 100, z % 100;
    assert z == 100 * c + y;
    MonthsAreContiguous(d);
    if w == 365 {
      LastDayOfCentury(d);
    }
    CenturyArithmetic(c, y, w);
    YearStartInCentury(c, y);
    assert 4 * DayNumber(d) + 183187720 == 4 * (36525 * c + 1461 * y / 4 - 3 * c / 4 + w) + 146097 * 300;
  }

  lemma YearIsRecovered(d: Date)
    requires IsDate(d)
    ensures var j := 4 * DayNumber(d) + 139361631 + ((MarchYear(d) / 100 + 300) * 3) / 4 * 4 - 3908;
            j / 1461 == MarchYear(d) && j % 1461 / 4 == DayOfMarchYear(d)
  {
    var z, w := MarchYear(d), DayOfMarchYear(d);
    MonthsAreContiguous(d);
    if w == 365 {
      LastDayOfCentury(d);
    }
    YearArithmetic(z, w);
    ThreeQuarters(z / 100);
  }

  lemma ThreeQuarters(c: int)
    ensures ((c + 300) * 3) / 4 == 3 * c / 4 + 225
  {
  }

  lemma YearArithmetic(z: int, w: int)
    requires 0 <= w <= 365 && (w == 365 ==> z % 4 == 3)
    ensures var j := 4 * (1461 * z / 4) + 4 * w + 3; j / 1461 == z && j % 1461 / 4 == w
  {
    var r := z % 4;
    QuarterDays(z);
    QuotientIs(1461 * z + (4 * w + 3 - r), 1461, z, 4 * w + 3 - r);
  }

  lemma QuarterDays(z: int)
    ensures 4 * (1461 * z / 4) == 1461 * z - z % 4
  {
    var q, r := z / 4, z % 4;
    assert 1461 * z == 4 * (1461 * q + 365 * r) + r;
  }

  lemma MonthArithmetic(k: int, t: int)
    requires 0 <= t <= 30 && (t == 30 ==> (153 * k + 2) % 5 >= 2)
    ensures var i := 5 * ((153 * k + 2) / 5 + t) + 308; i / 153 == k + 2 && i % 153 / 5 == t
  {
    var e := (153 * k + 2) % 5;
    assert 5 * ((153 * k + 2) / 5) == 153 * k + 2 - e;
    var rest := 4 - e + 5 * t;
    var i := 5 * ((153 * k + 2) / 5 + t) + 308;
    assert i == 153 * (k + 2) + rest && 0 <= rest < 153;
  }

  lemma MonthIsRecovered(d: Date)
    requires IsDate(d)
    ensures var i := DayOfMarchYear(d) * 5 + 308;
            d.month == (i / 153) % 12 + 1 && d.day == i % 153 / 5 + 1 && i >= 0
  {
    var k := (d.month + 9) % 12;
    LongMonths(d.month);
    MonthArithmetic(k, d.day - 1);
  }

  lemma LongMonths(m: int)
    requires 1 <= m <= 12
    ensures var k := (m + 9) % 12; (k + 2) % 12 + 1 == m && DaysBefore(m) >= 0
    ensures m == 2 || m == 4 || m == 6 || m == 9 || m == 11 || (153 * ((m + 9) % 12) + 2) % 5 >= 2
  {
  }

  lemma DivIsEuclidean(a: int, b: Nonzero)
    requires a >= 0 && b > 0
    ensures Div(a, b) == a / b && Mod(Div, a, b) == a % b
  {
  }

  /** `_d2g` undoes the day number: it undoes `_g2d` only with the `- 1` of line 66 added back. */
  lemma D2gInvertsDayNumber(d: Date)
    requires IsDate(d)
    ensures D2g(Div, DayNumber(d)) == d
  {
    hide D2g, DayNumber, DayOfMarchYear;
    var n, z := DayNumber(d), MarchYear(d);
    CenturyIsRecovered(d);
    YearIsRecovered(d);
    MonthIsRecovered(d);
    MonthsAreContiguous(d);
    D2gUnfolded(n, z, DayOfMarchYear(d));
  }

  lemma D2gUnfolded(n: int, z: int, w: int)
    requires z >= 100100 && 0 <= w <= 365
    requires (4 * n + 183187720) / 146097 == z / 100 + 300
    requires var j := 4 * n + 139361631 + ((z / 100 + 300) * 3) / 4 * 4 - 3908; j / 1461 == z && j % 1461 / 4 == w
    ensures var i := 5 * w + 308;
            var gm := (i / 153) % 12 + 1;
            D2g(Div, n) == Date(z - 100100 + if gm <= 2 then 1 else 0, gm, i % 153 / 5 + 1)
  {
    hide Div, Mod;
    DivIsEuclidean(4 * n + 183187720, 146097);
    DivIsEuclidean((z / 100 + 300) * 3, 4);
    var j := 4 * n + 139361631 + ((z / 100 + 300) * 3) / 4 * 4 - 3908;
    DivIsEuclidean(j, 1461);
    DivIsEuclidean(j % 1461, 4);
    var i := 5 * w + 308;
    DivIsEuclidean(i, 153);
    DivIsEuclidean(i % 153, 5);
    DivIsEuclidean(i / 153, 12);
    var gm := (i / 153) % 12 + 1;
    MonthShift(gm);
  }

  lemma MonthShift(gm: int)
    requires 1 <= gm <= 12
    ensures Div(8 - gm, 6) == if gm <= 2 then 1 else 0
    ensures Div(gm - 8, 6) == if gm <= 2 then -1 else 0
  {
  }

  /** As written, `_d2g(_g2d(d) + 1)` is d, and `_d2g(_g2d(d))` is the day before. */
  lemma AsWrittenIsOneDayBehind(d: Date)
    requires IsDate(d)
    ensures D2g(Div, G2d(AS_WRITTEN, d.year, d.month, d.day) + 1) == d
    ensures D2g(Div, G2d(AS_WRITTEN, Next(d).year, Next(d).month, Next(d).day)) == d
  {
    hide G2d, D2g, DayNumber;
    G2dIsDayNumber(1, d);
    G2dIsDayNumber(1, Next(d));
    NextIsSuccessor(d);
    D2gInvertsDayNumber(d);
  }

  /** Dates are ordered as their day numbers. */
  predicate Before(d: Date, e: Date) {
    d.year < e.year || (d.year == e.year && (d.month < e.month || (d.month == e.month && d.day < e.day)))
  }

  lemma YearIsOrdered(d: Date, e: Date)
    requires IsDate(d) && IsDate(e) && d.year < e.year
    ensures DayNumber(d) < DayNumber(e)
    decreases e.year - d.year
  {
    hide DayNumber, IsLeap;
    var last, first := Date(d.year, 12, 31), Date(d.year + 1, 1, 1);
    WithinYearIsOrdered(d, last);
    NextIsSuccessor(last);
    if d.year + 1 < e.year {
      YearIsOrdered(first, e);
    } else {
      WithinYearIsOrdered(first, e);
    }
  }

  lemma WithinYearIsOrdered(d: Date, e: Date)
    requires IsDate(d) && IsDate(e) && d.year == e.year && (d == e || Before(d, e))
    ensures DayNumber(d) <= DayNumber(e)
    ensures d != e ==> DayNumber(d) < DayNumber(e)
    decreases e.month - d.month
  {
    hide YearStart, DaysBefore, IsLeap;
    if d.month < e.month {
      var last := d.(day := MonthLength(d.year, d.month));
      NextIsSuccessor(last);
      WithinYearIsOrdered(Next(last), e);
    }
  }

  /** Later dates have larger day numbers. */
  lemma BeforeIsOrder(d: Date, e: Date)
    requires IsDate(d) && IsDate(e)
    ensures Before(d, e) <==> DayNumber(d) < DayNumber(e)
  {
    if d.year < e.year {
      YearIsOrdered(d, e);
    } else if e.year < d.year {
      YearIsOrdered(e, d);
    } else if d == e || Before(d, e) {
      WithinYearIsOrdered(d, e);
    } else {
      WithinYearIsOrdered(e, d);
    }
  }
}
