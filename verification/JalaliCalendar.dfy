/**
 The Jalali calendar as days: years of 365 or 366 days laid end to end from 1 Farvardin -61, and the proof that
 `march` and `leap`, which `_jal_cal` computes independently of each other, describe the same years (lines 32-58).
 */
module JalaliCalendar {
  import opened Wrappers
  import opened Truncation
  import opened Jalali
  import Gregorian

  /** The `leap` of a supported year: how many years ago a leap year was, 0 for a leap year. */
  function Leap(jy: int): int
    requires Supported(jy)
  {
    JalCal(Div, jy).value.leap
  }

  /** The day of March on which a supported year starts. */
  function March(jy: int): int
    requires Supported(jy)
  {
    JalCal(Div, jy).value.march
  }

  /**
   The leap rule of a stretch of years: counted from its first year in cycles of 33, every fourth year is leap and the
   last of a cycle is not; but the stretch ends with a leap year and four that are not.
   */
  predicate IsLeapIn(jy: int, first: int, last: int) {
    jy == last - 4 || (jy < last - 4 && (jy - first) % 33 % 4 == 0 && (jy - first) % 33 != 32)
  }

  /** The leap years of the calendar, by its nineteen stretches of years. */
  predicate LeapYear(jy: int) {
    if jy < 9 then IsLeapIn(jy, -61, 8)
    else if jy < 38 then IsLeapIn(jy, 9, 37)
    else if jy < 199 then IsLeapIn(jy, 38, 198)
    else if jy < 426 then IsLeapIn(jy, 199, 425)
    else if jy < 686 then IsLeapIn(jy, 426, 685)
    else if jy < 756 then IsLeapIn(jy, 686, 755)
    else if jy < 818 then IsLeapIn(jy, 756, 817)
    else if jy < 1111 then IsLeapIn(jy, 818, 1110)
    else if jy < 1181 then IsLeapIn(jy, 1111, 1180)
    else if jy < 1210 then IsLeapIn(jy, 1181, 1209)
    else if jy < 1635 then IsLeapIn(jy, 1210, 1634)
    else if jy < 2060 then IsLeapIn(jy, 1635, 2059)
    else if jy < 2097 then IsLeapIn(jy, 2060, 2096)
    else if jy < 2192 then IsLeapIn(jy, 2097, 2191)
    else if jy < 2262 then IsLeapIn(jy, 2192, 2261)
    else if jy < 2324 then IsLeapIn(jy, 2262, 2323)
    else if jy < 2394 then IsLeapIn(jy, 2324, 2393)
    else if jy < 2456 then IsLeapIn(jy, 2394, 2455)
    else IsLeapIn(jy, 2456, 3177)
  }

  function YearLength(jy: int): int {
    if LeapYear(jy) then 366 else 365
  }

  /** The day number of 1 Farvardin -61. */
  const EPOCH := 1925674

  /** The day number of 1 Farvardin: the lengths of all the years before, summed. */
  function NewYear(jy: int): int
    requires FIRST_YEAR <= jy <= END_YEAR
    decreases jy - FIRST_YEAR
  {
    if jy == FIRST_YEAR then EPOCH else NewYear(jy - 1) + YearLength(jy - 1)
  }

  lemma JalCalCases(jy: int)
    ensures !Supported(jy) ==> JalCal(Div, jy) == Failure(YearOutOfRange(jy))
    ensures Supported(jy) ==> JalCal(Div, jy).Success?
    ensures Supported(jy) ==> JalCal(Div, jy).value == YearInfo(Leap(jy), jy + 621, March(jy))
  {
  }

  // ------------------------------------------------------------------- one segment of the break table

  /** Lines 47-49 and 53-57 in Euclidean arithmetic. */
  function Offset(jump: int, n: int): int {
    n / 33 * 8 + (n % 33 + 3) / 4 + if jump % 33 == 4 && jump - n == 4 then 1 else 0
  }

  function LeapPhase(jump: int, n: int): int {
    var m := if jump - n < 6 then n - jump + (jump + 4) / 33 * 33 else n;
    if (m + 1) % 33 == 0 then 4 else ((m + 1) % 33 - 1) % 4
  }

  predicate SegmentLength(jump: int) {
    jump >= 29 && (jump % 33 == 29 || jump % 33 == 4)
  }

  lemma Jumps(i: nat)
    requires i + 1 < BREAKS
    ensures var j := Jump(i);
            j == 29 || j == 37 || j == 62 || j == 70 || j == 95 || j == 161 || j == 227 || j == 260 || j == 293 || j == 425 || j == 722
  {
  }

  lemma SegmentLengths(i: nat)
    requires i + 1 < BREAKS
    ensures SegmentLength(Jump(i))
  {
    hide Jump;
    Jumps(i);
  }

  lemma SegmentIsEuclidean(base: int, jump: int, n: int)
    requires SegmentLength(jump) && 0 <= n < jump
    ensures LeapCountIn(Div, base, jump, n) == base + Offset(jump, n)
    ensures LeapIn(Div, jump, n) == LeapPhase(jump, n)
  {
    CountIsEuclidean(base, jump, n);
    PhaseIsEuclidean(jump, n);
  }

  lemma CountIsEuclidean(base: int, jump: int, n: int)
    requires SegmentLength(jump) && 0 <= n < jump
    ensures LeapCountIn(Div, base, jump, n) == base + Offset(jump, n)
  {
    hide Div, Mod;
    Gregorian.DivIsEuclidean(n, 33);
    Gregorian.DivIsEuclidean(n % 33 + 3, 4);
    Gregorian.DivIsEuclidean(jump, 33);
  }

  lemma PhaseIsEuclidean(jump: int, n: int)
    requires SegmentLength(jump) && 0 <= n < jump
    ensures LeapIn(Div, jump, n) == LeapPhase(jump, n)
  {
    hide Div, Mod;
    Gregorian.DivIsEuclidean(jump + 4, 33);
    var m := if jump - n < 6 then n - jump + (jump + 4) / 33 * 33 else n;
    Gregorian.DivIsEuclidean(m + 1, 33);
    LastRemainder((m + 1) % 33 - 1);
  }

  lemma LastRemainder(a: int)
    requires a >= -1
    ensures Mod(Div, a, 4) == if a == -1 then -1 else a % 4
  {
  }

  /** In the last five years of a segment the phase counts up to 4, whatever the segment. */
  lemma PhaseNearEnd(jump: int, t: int)
    requires 1 <= t <= 5
    ensures LeapPhase(jump, jump - t) == 5 - t
  {
    var k := (jump + 4) / 33;
    assert (33 * k + 1 - t) % 33 == if t == 1 then 0 else 34 - t;
  }

  lemma NextRemainder(n: int)
    requires n >= 0
    ensures (n + 1) % 33 == (if n % 33 == 32 then 0 else n % 33 + 1)
    ensures (n + 1) / 33 == if n % 33 == 32 then n / 33 + 1 else n / 33
  {
  }

  /** Inside a segment, a year adds a leap day exactly when its phase is 0, and the next phase is then 1. */
  lemma WithinSegment(jump: int, n: int)
    requires SegmentLength(jump) && 0 <= n < jump - 1
    ensures Offset(jump, n + 1) == Offset(jump, n) + if LeapPhase(jump, n) == 0 then 1 else 0
    ensures LeapPhase(jump, n) == 0 <==> LeapPhase(jump, n + 1) == 1
  {
    hide Offset, LeapPhase, SegmentLength;
    if jump - n <= 6 {
      NearEnd(jump, n);
    } else {
      MidPhase(jump, n);
      MidPhase(jump, n + 1);
      MidOffset(jump, n);
      NextRemainder(n);
    }
  }

  lemma MidPhase(jump: int, n: int)
    requires n >= 0 && jump - n >= 6
    ensures LeapPhase(jump, n) == if n % 33 == 32 then 4 else n % 33 % 4
  {
    NextRemainder(n);
  }

  lemma MidOffset(jump: int, n: int)
    requires n >= 0 && jump - n > 6
    ensures Offset(jump, n + 1) == Offset(jump, n) + if n % 33 != 32 && n % 33 % 4 == 0 then 1 else 0
  {
    NextRemainder(n);
  }

  lemma NearEnd(jump: int, n: int)
    requires SegmentLength(jump) && 0 <= n < jump - 1 && jump - n <= 6
    ensures Offset(jump, n + 1) == Offset(jump, n) + if LeapPhase(jump, n) == 0 then 1 else 0
    ensures LeapPhase(jump, n) == 0 <==> LeapPhase(jump, n + 1) == 1
  {
    NextRemainder(n);
    SixthFromEnd(jump, n);
    PhaseNearEnd(jump, jump - n - 1);
    if jump - n == 6 {
      SixthPhase(jump, n);
    } else {
      PhaseNearEnd(jump, jump - n);
    }
    OffsetNearEnd(jump, n);
  }

  lemma SixthPhase(jump: int, n: int)
    requires jump - n == 6 && n >= 0 && (n % 33 == 23 || n % 33 == 31)
    ensures LeapPhase(jump, n) == 3
  {
    NextRemainder(n);
  }

  lemma OffsetNearEnd(jump: int, n: int)
    requires SegmentLength(jump) && 0 <= n < jump - 1 && jump - n <= 6
    ensures Offset(jump, n + 1) == Offset(jump, n) + if jump - n == 5 then 1 else 0
  {
    NextRemainder(n);
    SixthFromEnd(jump, n);
  }

  lemma SixthFromEnd(jump: int, n: int)
    requires SegmentLength(jump) && 0 <= n < jump - 1 && jump - n <= 6
    ensures n % 33 == if jump % 33 == 29 then 29 - (jump - n) else if jump - n <= 4 then 4 - (jump - n) else 37 - (jump - n)
  {
    var k, r, t := jump / 33, jump % 33, jump - n;
    assert n == 33 * k + r - t;
  }

  /** The last year of a segment is never leap, the first always is, and no leap day falls between. */
  lemma AcrossBreak(jump: int, next: int)
    requires SegmentLength(jump) && SegmentLength(next)
    ensures jump / 33 * 8 + jump % 33 / 4 + Offset(next, 0) == Offset(jump, jump - 1)
    ensures LeapPhase(jump, jump - 1) == 4 && LeapPhase(next, 0) == 0
  {
    var k, r := jump / 33, jump % 33;
    assert jump == 33 * k + r;
    assert (jump - 1) / 33 == k && (jump - 1) % 33 == r - 1;
    assert (jump + 4) / 33 == if r == 29 then k + 1 else k;
  }

  // ----------------------------------------------------------------------------- all supported years

  /** The final `leap_j` of a supported year. */
  function LeapCount(jy: int): int
    requires Supported(jy)
  {
    var s := SegmentFrom(jy, 0);
    LeapCountIn(Div, LeapBefore(Div, s), Jump(s), jy - Break(s))
  }

  lemma BreaksIncrease(i: nat, j: nat)
    requires i <= j < BREAKS
    ensures Break(i) <= Break(j)
    ensures i < j ==> Break(i) < Break(j)
    decreases j
  {
    if i < j {
      SegmentLengths(j - 1);
      BreaksIncrease(i, j - 1);
    }
  }

  lemma {:induction false} SegmentIs(jy: int, i: nat, s: nat)
    requires i <= s && s + 1 < BREAKS && Break(s) <= jy < Break(s + 1)
    ensures jy < END_YEAR && Break(i) <= jy && SegmentFrom(jy, i) == s
    decreases s - i
  {
    hide Break;
    BreaksIncrease(i, s);
    BreaksIncrease(s + 1, BREAKS - 1);
    if i < s {
      BreaksIncrease(i + 1, s);
      SegmentIs(jy, i + 1, s);
    }
  }

  /** The year's position in the table, in Euclidean arithmetic. */
  lemma YearInSegment(jy: int, s: nat)
    requires s + 1 < BREAKS && Break(s) <= jy < Break(s + 1)
    ensures Supported(jy) && SegmentLength(Jump(s))
    ensures Leap(jy) == LeapPhase(Jump(s), jy - Break(s))
    ensures LeapCount(jy) == LeapBefore(Div, s) + Offset(Jump(s), jy - Break(s))
    ensures March(jy) == MarchDay(Div, jy, LeapCount(jy))
  {
    hide Break, LeapBefore, LeapIn, LeapCountIn, LeapPhase, Offset, MarchDay;
    BreaksIncrease(0, s);
    SegmentIs(jy, 0, s);
    SegmentLengths(s);
    SegmentIsEuclidean(LeapBefore(Div, s), Jump(s), jy - Break(s));
  }

  lemma PhaseIsZero(jump: int, n: int)
    requires 0 <= n < jump
    ensures LeapPhase(jump, n) == 0 <==> IsLeapIn(n, 0, jump - 1)
  {
    hide LeapPhase;
    if jump - n >= 6 {
      MidPhase(jump, n);
    } else {
      PhaseNearEnd(jump, jump - n);
    }
  }

  lemma PhaseStep(jump: int, n: int)
    requires 0 <= n < jump - 1
    ensures LeapPhase(jump, n + 1) == 0 || LeapPhase(jump, n + 1) == LeapPhase(jump, n) + 1
  {
    hide LeapPhase;
    if jump - n > 6 {
      MidPhase(jump, n);
      MidPhase(jump, n + 1);
      NextRemainder(n);
    } else {
      PhaseNearEnd(jump, jump - n - 1);
      if jump - n < 6 {
        PhaseNearEnd(jump, jump - n);
      }
    }
  }

  lemma LeapYearInSegment(jy: int, s: nat)
    requires s + 1 < BREAKS && Break(s) <= jy < Break(s + 1)
    ensures LeapYear(jy) <==> IsLeapIn(jy, Break(s), Break(s + 1) - 1)
  {
    hide IsLeapIn;
  }

  /** `leap` is 0 exactly for the leap years of the calendar. */
  lemma LeapIsByRule(jy: int)
    requires Supported(jy)
    ensures Leap(jy) == 0 <==> LeapYear(jy)
  {
    hide Break, Leap, LeapYear, LeapPhase, LeapCount, LeapBefore, March;
    var s := SegmentFrom(jy, 0);
    YearInSegment(jy, s);
    PhaseIsZero(Jump(s), jy - Break(s));
    LeapYearInSegment(jy, s);
  }

  /** A year adds one to `leap_j` exactly when its own `leap` is 0, and then the next year's `leap` is 1. */
  lemma LeapStep(jy: int)
    requires Supported(jy) && Supported(jy + 1)
    ensures LeapCount(jy + 1) == LeapCount(jy) + if Leap(jy) == 0 then 1 else 0
    ensures Leap(jy) == 0 <==> Leap(jy + 1) == 1
  {
    hide Break, Leap, LeapCount;
    var s := SegmentFrom(jy, 0);
    if jy + 1 < Break(s + 1) {
      LeapStepWithin(jy, s);
    } else {
      LeapStepAcross(jy, s);
    }
  }

  lemma LeapStepWithin(jy: int, s: nat)
    requires s + 1 < BREAKS && Break(s) <= jy < jy + 1 < Break(s + 1)
    ensures Supported(jy) && Supported(jy + 1)
    ensures LeapCount(jy + 1) == LeapCount(jy) + if Leap(jy) == 0 then 1 else 0
    ensures Leap(jy) == 0 <==> Leap(jy + 1) == 1
  {
    hide Break, LeapPhase, Offset, LeapCount, Leap, LeapBefore, March;
    YearInSegment(jy, s);
    YearInSegment(jy + 1, s);
    WithinSegment(Jump(s), jy - Break(s));
  }

  lemma LeapStepAcross(jy: int, s: nat)
    requires s + 2 < BREAKS && Break(s) <= jy && jy + 1 == Break(s + 1)
    ensures Supported(jy) && Supported(jy + 1)
    ensures LeapCount(jy + 1) == LeapCount(jy) && Leap(jy) == 4 && Leap(jy + 1) == 0
  {
    hide Break, LeapPhase, Offset, LeapCount, Leap, LeapBefore, March;
    SegmentLengths(s);
    SegmentLengths(s + 1);
    YearInSegment(jy, s);
    YearInSegment(jy + 1, s + 1);
    AcrossBreak(Jump(s), Jump(s + 1));
    EnterSegment(s);
  }

  lemma EnterSegment(s: nat)
    requires s + 1 < BREAKS
    ensures LeapBefore(Div, s + 1) == LeapBefore(Div, s) + Jump(s) / 33 * 8 + Jump(s) % 33 / 4
  {
    hide Break, Mod;
    SegmentLengths(s);
    Gregorian.DivIsEuclidean(Jump(s), 33);
    Gregorian.DivIsEuclidean(Jump(s) % 33, 4);
  }

  /** `leap` counts the years since the last leap year. */
  lemma LeapCountsBack(jy: int)
    requires Supported(jy) && Supported(jy + 1)
    ensures Leap(FIRST_YEAR) == 0
    ensures Leap(jy + 1) == if LeapYear(jy + 1) then 0 else Leap(jy) + 1
  {
    hide Break, Leap, LeapYear, LeapPhase, LeapCount, LeapBefore, March;
    LeapIsByRule(jy + 1);
    FirstYearIsLeap();
    var s := SegmentFrom(jy, 0);
    if jy + 1 < Break(s + 1) {
      YearInSegment(jy, s);
      YearInSegment(jy + 1, s);
      PhaseStep(Jump(s), jy - Break(s));
    } else {
      LeapStepAcross(jy, s);
    }
  }

  lemma FirstYearIsLeap()
    ensures Leap(FIRST_YEAR) == 0
  {
    hide Leap;
    LeapIsByRule(FIRST_YEAR);
  }

  /** The Gregorian leap terms of `leap_g` and of `_g2d` cancel: what is left counts Jalali leap years only. */
  lemma MarchIsLinear(jy: int)
    requires Supported(jy)
    ensures G2d(AS_WRITTEN, jy + 621, 3, March(jy)) == 365 * jy + LeapCount(jy) + 1947953
  {
    hide G2d, MarchDay, LeapCount, Gregorian.YearStart, Gregorian.DayNumber, March, Leap, Break, SegmentFrom, LeapBefore, Offset, LeapPhase;
    var count, gy := LeapCount(jy), jy + 621;
    YearInSegment(jy, SegmentFrom(jy, 0));
    MarchIsEuclidean(gy, count);
    Gregorian.G2dIsDayNumber(1, Date(gy, 3, March(jy)));
    DayInMarch(gy, March(jy));
    LeapTermsCancel(gy);
  }

  lemma DayInMarch(gy: int, march: int)
    ensures Gregorian.DayNumber(Date(gy, 3, march)) == Gregorian.YearStart(gy + 100100) + march - 34839656
  {
  }

  lemma MarchIsEuclidean(gy: int, count: int)
    requires gy >= 0
    ensures MarchDay(Div, gy - 621, count) == 20 + count - (gy / 4 - (gy / 100 + 1) * 3 / 4 - 150)
  {
  }

  lemma LeapTermsCancel(gy: int)
    requires gy >= 0
    ensures Gregorian.YearStart(gy + 100100) - (gy / 4 - (gy / 100 + 1) * 3 / 4 - 150)
            == 365 * gy + 36560925
  {
    var q, r := gy / 100, gy % 100;
    QuotientIs(gy + 100100, 100, q + 1001, r);
    QuotientIs(1461 * (gy + 100100), 4, 365 * (gy + 100100) + gy / 4 + 25025, gy % 4);
    QuotientIs(3 * (q + 1001), 4, (q + 1) * 3 / 4 + 750, (q + 1) * 3 % 4);
  }

  /** The 1 Farvardin that `march` gives is the one reached by laying the years end to end. */
  lemma {:induction false} MarchAgreesWithLeap(jy: int)
    requires Supported(jy)
    ensures G2d(AS_WRITTEN, jy + 621, 3, March(jy)) == NewYear(jy)
    decreases jy - FIRST_YEAR
  {
    hide LeapCount, Leap, LeapYear, March, G2d;
    MarchIsLinear(jy);
    if jy == FIRST_YEAR {
      FirstLeapCount();
    } else {
      LeapIsByRule(jy - 1);
      MarchAgreesWithLeap(jy - 1);
      MarchIsLinear(jy - 1);
      LeapStep(jy - 1);
    }
  }

  lemma FirstLeapCount()
    ensures LeapCount(FIRST_YEAR) == -14
  {
    SegmentIs(FIRST_YEAR, 0, 0);
    YearInSegment(FIRST_YEAR, 0);
  }

  /** The distance between two 1 Farvardins, against both of the leap indicators of `_jal_cal`. */
  lemma YearLengthIsAgreed(jy: int)
    requires Supported(jy) && Supported(jy + 1)
    ensures var distance := G2d(AS_WRITTEN, jy + 622, 3, March(jy + 1)) - G2d(AS_WRITTEN, jy + 621, 3, March(jy));
            distance == (if Leap(jy + 1) == 1 then 366 else 365) == YearLength(jy)
    ensures Leap(jy + 1) == 1 <==> Leap(jy) == 0
  {
    hide LeapCount, Leap, LeapYear, March, G2d;
    MarchAgreesWithLeap(jy);
    MarchAgreesWithLeap(jy + 1);
    LeapIsByRule(jy);
    LeapStep(jy);
  }

  // ------------------------------------------------------------------------- the range of `march`

  /** The table drifts little from 8 leap years in 33. */
  lemma {:induction false} LeapBeforeDrift(s: nat)
    requires s < BREAKS
    ensures 26 - s <= 33 * LeapBefore(Div, s) - 8 * Break(s) <= 26 + s
  {
    hide Break, LeapBefore;
    if s == 0 {
      WalkStart(Div);
    } else {
      LeapBeforeDrift(s - 1);
      EnterSegment(s - 1);
      SegmentLengths(s - 1);
      JumpDrift(Jump(s - 1));
    }
  }

  lemma JumpDrift(jump: int)
    requires SegmentLength(jump)
    ensures -1 <= 33 * (jump / 33 * 8 + jump % 33 / 4) - 8 * jump <= 1
  {
  }

  lemma OffsetDrift(jump: int, n: int)
    requires n >= 0
    ensures 0 <= 33 * Offset(jump, n) - 8 * n <= 65
  {
  }

  /** 1 Farvardin of a supported year falls between 15 and 30 March: the conversion's first guess is a safe one. */
  lemma MarchIsInMarch(jy: int)
    requires Supported(jy)
    ensures 15 <= March(jy) <= 30
  {
    hide Break, LeapBefore, Offset, LeapPhase, March, LeapCount;
    var s := SegmentFrom(jy, 0);
    YearInSegment(jy, s);
    LeapBeforeDrift(s);
    OffsetDrift(Jump(s), jy - Break(s));
    MarchIsEuclidean(jy + 621, LeapCount(jy));
    assert 8 * jy + 8 <= 33 * LeapCount(jy) <= 8 * jy + 109;
  }
}
