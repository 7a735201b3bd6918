/** Dividing through binary64 floats, as Python's `int(a / b)` does, changes no conversion of a Python date. */
module JalaliRounding {
  import opened Truncation
  import opened Jalali
  import opened JalaliCalendar
  import opened JalaliConversion
  import Gregorian

  ghost predicate ExactOnSmall(div: Divider) {
    forall a: int, b: Nonzero :: SmallOperands(a, b) ==> div(a, b) == Div(a, b)
  }

  lemma Binary64IsExactOnSmall(div: Divider)
    requires DividesThroughBinary64(div)
    ensures ExactOnSmall(div)
  {
    forall a: int, b: Nonzero | SmallOperands(a, b)
      ensures div(a, b) == Div(a, b)
    {
      Binary64DividerIsExact(div, a, b);
    }
  }

  lemma SmallQuotient(div: Divider, a: int, b: Nonzero)
    requires ExactOnSmall(div) && a >= 0 && b > 0 && SmallOperands(a, b)
    ensures div(a, b) == Div(a, b) == a / b && Mod(div, a, b) == Mod(Div, a, b) == a % b
  {
  }

  lemma ShiftIsExact(div: Divider, gm: int)
    requires ExactOnSmall(div) && 1 <= gm <= 12
    ensures div(gm - 8, 6) == Div(gm - 8, 6) && -1 <= Div(gm - 8, 6) <= 0
  {
  }

  /** Every operand of `_g2d` is small for years near the table and months and days near a calendar's. */
  lemma G2dIsExact(div: Divider, lag: int, gy: int, gm: int, gd: int)
    requires ExactOnSmall(div) && -1000 <= gy <= 10000 && 1 <= gm <= 12
    ensures G2d(Variant(div, lag), gy, gm, gd) == G2d(Exact(lag), gy, gm, gd)
  {
    hide Div, Mod, ExactOnSmall;
    ShiftIsExact(div, gm);
    var z := gy + 100100 + Div(gm - 8, 6);
    SmallQuotient(div, z * 1461, 4);
    SmallQuotient(div, gm + 9, 12);
    SmallQuotient(div, 153 * ((gm + 9) % 12) + 2, 5);
    SmallQuotient(div, z, 100);
    SmallQuotient(div, z / 100 * 3, 4);
  }

  lemma D2gIsExact(div: Divider, jdn: int)
    requires ExactOnSmall(div) && 0 <= jdn <= 6000000
    ensures D2g(div, jdn) == D2g(Div, jdn)
  {
    hide Div, Mod, ExactOnSmall;
    SmallQuotient(div, 4 * jdn + 183187720, 146097);
    var c := (4 * jdn + 183187720) / 146097;
    assert 0 <= c <= 2000;
    SmallQuotient(div, c * 3, 4);
    var j := 4 * jdn + 139361631 + c * 3 / 4 * 4 - 3908;
    SmallQuotient(div, j, 1461);
    SmallQuotient(div, j % 1461, 4);
    var i := j % 1461 / 4 * 5 + 308;
    SmallQuotient(div, i, 153);
    SmallQuotient(div, i % 153, 5);
    SmallQuotient(div, i / 153, 12);
    LastShift(div, i / 153 % 12 + 1);
  }

  lemma LastShift(div: Divider, gm: int)
    requires ExactOnSmall(div) && 1 <= gm <= 12
    ensures div(8 - gm, 6) == Div(8 - gm, 6)
  {
  }

  lemma {:induction false} LeapBeforeIsExact(div: Divider, s: nat)
    requires ExactOnSmall(div) && s < BREAKS
    ensures LeapBefore(div, s) == LeapBefore(Div, s)
  {
    hide Break;
    if s > 0 {
      LeapBeforeIsExact(div, s - 1);
      JumpIsSmall(s - 1);
    }
  }

  lemma JumpIsSmall(s: nat)
    requires s + 1 < BREAKS
    ensures 0 < Jump(s) <= 800 && 0 <= Mod(Div, Jump(s), 33) < 33
  {
  }

  /** Exactness for operands of either sign, with the remainder's bound. */
  lemma SmallRemainder(div: Divider, a: int, b: Nonzero)
    requires ExactOnSmall(div) && b > 0 && SmallOperands(a, b)
    ensures div(a, b) == Div(a, b) && Mod(div, a, b) == Mod(Div, a, b) && Abs(Mod(Div, a, b)) < b
  {
    TruncationIsUnique(a, b, Div(a, b));
  }

  lemma LeapIsExact(div: Divider, base: int, jump: int, n: int)
    requires ExactOnSmall(div) && 0 <= n < jump <= 800
    ensures LeapIn(div, jump, n) == LeapIn(Div, jump, n)
    ensures LeapCountIn(div, base, jump, n) == LeapCountIn(Div, base, jump, n)
  {
    hide Div, Mod, ExactOnSmall;
    SmallQuotient(div, n, 33);
    SmallQuotient(div, n % 33 + 3, 4);
    SmallQuotient(div, jump, 33);
    SmallQuotient(div, jump + 4, 33);
    var m := if jump - n < 6 then n - jump + (jump + 4) / 33 * 33 else n;
    SmallRemainder(div, m + 1, 33);
    SmallRemainder(div, Mod(Div, m + 1, 33) - 1, 4);
  }

  lemma JalCalIsExact(div: Divider, jy: int)
    requires ExactOnSmall(div) && -2000 <= jy <= 10000
    ensures JalCal(div, jy) == JalCal(Div, jy)
  {
    hide Break, LeapBefore, LeapIn, LeapCountIn, Mod;
    if Supported(jy) {
      var s := SegmentFrom(jy, 0);
      LeapBeforeIsExact(div, s);
      JumpIsSmall(s);
      LeapIsExact(div, LeapBefore(Div, s), Jump(s), jy - Break(s));
    }
  }

  lemma FromNewYearIsExact(div: Divider, jy: int, leap: int, k: int)
    requires ExactOnSmall(div) && -10000000 <= k <= 10000000
    ensures FromNewYear(div, jy, leap, k) == FromNewYear(Div, jy, leap, k)
  {
    hide Div;
  }

  /** `int(a / b)` through binary64 converts every Python date as exact truncating division does. */
  lemma Binary64ConversionIsExact(div: Divider, g: Date)
    requires DividesThroughBinary64(div) && IsPythonDate(g)
    ensures GregorianToJalali(Variant(div, 1), g) == GregorianToJalali(AS_WRITTEN, g)
  {
    hide D2g, G2d, FromNewYear, JalCal, NewYear, Leap, LeapYear, March;
    Binary64IsExactOnSmall(div);
    G2dIsExact(div, 1, g.year, g.month, g.day);
    var n := G2d(AS_WRITTEN, g.year, g.month, g.day);
    PythonDayNumber(g);
    D2gIsExact(div, n);
    var y := D2g(Div, n).year;
    GuessIsPythonYear(g, y);
    JalCalIsExact(div, y - 621);
    JalCalCases(y - 621);
    if Supported(y - 621) {
      G2dIsExact(div, 1, y, 3, March(y - 621));
      MarchAgreesWithLeap(y - 621);
      NewYearIsBounded(y - 621);
      FromNewYearIsExact(div, y - 621, Leap(y - 621), n - NewYear(y - 621));
    }
  }

  lemma PythonDayNumber(g: Date)
    requires IsPythonDate(g)
    ensures 0 <= G2d(AS_WRITTEN, g.year, g.month, g.day) <= 6000000
  {
    hide G2d;
    Gregorian.G2dIsDayNumber(1, g);
    Gregorian.MonthsAreContiguous(g);
    MarchYearsAreSmall(Gregorian.MarchYear(g));
  }

  lemma MarchYearsAreSmall(z: int)
    requires 100100 <= z <= 110099
    ensures 36500000 <= Gregorian.YearStart(z) <= 40300000
  {
  }

  lemma GuessIsPythonYear(g: Date, y: int)
    requires IsPythonDate(g) && y == D2g(Div, G2d(AS_WRITTEN, g.year, g.month, g.day)).year
    ensures 0 <= y <= 9999
  {
    hide D2g, G2d, Gregorian.DayNumber;
    Gregorian.G2dIsDayNumber(1, g);
    if g == Date(1, 1, 1) {
      DayBeforeYearOne();
      Gregorian.DayNumberOfOrdinal(0);
    } else {
      DaysFromFirst(g);
      var p := DateOfDayNumber(Gregorian.DayNumber(g) - 1);
      Gregorian.BeforeIsOrder(p, g);
    }
  }
}
