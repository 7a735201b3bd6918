/**
 The functions of backend/app/common/jalali.py. They take the division to use, and the constant subtracted on
 line 66, as a Variant: `AS_WRITTEN` is the file itself, and the other variants are what its theorems compare it with.
 */
module Jalali {
  import opened Wrappers
  import opened Truncation

  /** lag is the `- 1` of line 66; the algorithm the file follows has 0 there. */
  datatype Variant = Variant(div: Divider, lag: int)

  function Exact(lag: int): Variant {
    Variant(Div, lag)
  }

  const AS_WRITTEN := Exact(1)

  datatype Date = Date(year: int, month: int, day: int)

  datatype YearInfo = YearInfo(leap: int, gy: int, march: int)

  datatype Error = YearOutOfRange(jy: int)

  /** The length of the break table. */
  const BREAKS := 20

  /** The break table, `_BREAKS`. */
  function Break(i: nat): (b: int)
    requires i < BREAKS
    ensures i == 0 ==> b == FIRST_YEAR
    ensures i == BREAKS - 1 ==> b == END_YEAR
  {
    match i
    case 0 => -61
    case 1 => 9
    case 2 => 38
    case 3 => 199
    case 4 => 426
    case 5 => 686
    case 6 => 756
    case 7 => 818
    case 8 => 1111
    case 9 => 1181
    case 10 => 1210
    case 11 => 1635
    case 12 => 2060
    case 13 => 2097
    case 14 => 2192
    case 15 => 2262
    case 16 => 2324
    case 17 => 2394
    case 18 => 2456
    case _ => 3178
  }

  const FIRST_YEAR := -61

  const END_YEAR := 3178

  function Jump(i: nat): int
    requires i + 1 < BREAKS
  {
    Break(i + 1) - Break(i)
  }

  /** `leap_j` after the loop has passed the first i segments. */
  function LeapBefore(div: Divider, i: nat): int
    requires i < BREAKS
  {
    if i == 0 then -14
    else LeapBefore(div, i - 1) + div(Jump(i - 1), 33) * 8 + div(Mod(div, Jump(i - 1), 33), 4)
  }

  /** The segment at which the loop stops, searching from segment i. */
  function SegmentFrom(jy: int, i: nat): (s: nat)
    requires i + 1 < BREAKS && Break(i) <= jy < END_YEAR
    ensures s + 1 < BREAKS && Break(s) <= jy < Break(s + 1)
    decreases BREAKS - i
  {
    if jy < Break(i + 1) then i else SegmentFrom(jy, i + 1)
  }

  predicate Supported(jy: int) {
    FIRST_YEAR <= jy < END_YEAR
  }

  /** Lines 47-49, for the n-th year of a segment of the given length entered with `leap_j` = base. */
  function LeapCountIn(div: Divider, base: int, jump: int, n: int): int {
    base + div(n, 33) * 8 + div(Mod(div, n, 33) + 3, 4)
    + if Mod(div, jump, 33) == 4 && jump - n == 4 then 1 else 0
  }

  /** Lines 53-57. */
  function LeapIn(div: Divider, jump: int, n: int): int {
    var m := if jump - n < 6 then n - jump + div(jump + 4, 33) * 33 else n;
    var leap := Mod(div, Mod(div, m + 1, 33) - 1, 4);
    if leap == -1 then 4 else leap
  }

  /** Lines 50-52. */
  function MarchDay(div: Divider, jy: int, leapCount: int): int {
    var gy := jy + 621;
    20 + leapCount - (div(gy, 4) - div((div(gy, 100) + 1) * 3, 4) - 150)
  }

  function JalCal(div: Divider, jy: int): Result<YearInfo, Error> {
    if !Supported(jy) then Failure(YearOutOfRange(jy))
    else
      var s := SegmentFrom(jy, 0);
      var n := jy - Break(s);
      Success(YearInfo(LeapIn(div, Jump(s), n), jy + 621, MarchDay(div, jy, LeapCountIn(div, LeapBefore(div, s), Jump(s), n))))
  }

  function G2d(v: Variant, gy: int, gm: int, gd: int): int {
    var d := v.div((gy + v.div(gm - 8, 6) + 100100) * 1461, 4)
             + v.div(153 * Mod(v.div, gm + 9, 12) + 2, 5)
             + gd - v.lag - 34840408;
    d - v.div(v.div(gy + 100100 + v.div(gm - 8, 6), 100) * 3, 4) + 752
  }

  function D2g(div: Divider, jdn: int): Date {
    var j := 4 * jdn + 139361631 + div(div(4 * jdn + 183187720, 146097) * 3, 4) * 4 - 3908;
    var i := div(Mod(div, j, 1461), 4) * 5 + 308;
    var gd := div(Mod(div, i, 153), 5) + 1;
    var gm := Mod(div, div(i, 153), 12) + 1;
    Date(div(j, 1461) - 100100 + div(8 - gm, 6), gm, gd)
  }

  /** Lines 88-97: the date k days after 1 Farvardin of jy, where leap tells the length of the year before. */
  function FromNewYear(div: Divider, jy: int, leap: int, k: int): Date {
    if 0 <= k <= 185 then Date(jy, 1 + div(k, 31), Mod(div, k, 31) + 1)
    else
      var autumn := if k >= 0 then k - 186 else k + 179 + if leap == 1 then 1 else 0;
      Date(if k >= 0 then jy else jy - 1, 7 + div(autumn, 30), Mod(div, autumn, 30) + 1)
  }

  function D2j(v: Variant, jdn: int): Result<Date, Error> {
    var gy := D2g(v.div, jdn).year;
    match JalCal(v.div, gy - 621)
    case Failure(e) => Failure(e)
    case Success(info) => Success(FromNewYear(v.div, gy - 621, info.leap, jdn - G2d(v, gy, 3, info.march)))
  }

  function GregorianToJalali(v: Variant, date: Date): Result<Date, Error> {
    D2j(v, G2d(v, date.year, date.month, date.day))
  }

  // ------------------------------------------------------- the two imperative functions, as the file runs them

  lemma WalkStart(div: Divider)
    ensures LeapBefore(div, 0) == -14
  {
  }

  lemma WalkStep(div: Divider, jy: int, i: nat)
    requires i + 1 < BREAKS && Break(i) <= jy < END_YEAR
    ensures SegmentFrom(jy, i) == if jy < Break(i + 1) then i else SegmentFrom(jy, i + 1)
    ensures LeapBefore(div, i + 1) == LeapBefore(div, i) + div(Jump(i), 33) * 8 + div(Mod(div, Jump(i), 33), 4)
  {
  }

  /** `_jal_cal`: walks the break table, updating `leap_j`, `jp` and `jump`. */
  method ComputeJalCal(div: Divider, jy: int) returns (r: Result<YearInfo, Error>)
    ensures r == JalCal(div, jy)
  {
    hide Break, Mod, SegmentFrom, LeapBefore;
    if jy < Break(0) || jy >= Break(BREAKS - 1) {
      return Failure(YearOutOfRange(jy));
    }
    var leapJ, jp, jump := -14, Break(0), 0;
    WalkStart(div);
    var i := 1;
    while i < BREAKS
      invariant 1 <= i < BREAKS
      invariant jp == Break(i - 1) && jp <= jy && leapJ == LeapBefore(div, i - 1)
      invariant SegmentFrom(jy, 0) == SegmentFrom(jy, i - 1)
    {
      var jm := Break(i);
      jump := jm - jp;
      WalkStep(div, jy, i - 1);
      if jy < jm {
        break;
      }
      leapJ := leapJ + div(jump, 33) * 8 + div(Mod(div, jump, 33), 4);
      jp := jm;
      i := i + 1;
    }
    var n := jy - jp;
    leapJ := leapJ + div(n, 33) * 8 + div(Mod(div, n, 33) + 3, 4);
    if Mod(div, jump, 33) == 4 && jump - n == 4 {
      leapJ := leapJ + 1;
    }
    var gy := jy + 621;
    var leapG := div(gy, 4) - div((div(gy, 100) + 1) * 3, 4) - 150;
    var march := 20 + leapJ - leapG;
    if jump - n < 6 {
      n := n - jump + div(jump + 4, 33) * 33;
    }
    var leap := Mod(div, Mod(div, n + 1, 33) - 1, 4);
    if leap == -1 {
      leap := 4;
    }
    r := Success(YearInfo(leap, gy, march));
  }

  /** `_d2j`: reassigns `k` and `jy` on the way to the second half of the year. */
  method ComputeD2j(v: Variant, jdn: int) returns (r: Result<Date, Error>)
    ensures r == D2j(v, jdn)
  {
    hide JalCal;
    var gy := D2g(v.div, jdn).year;
    var jy := gy - 621;
    var info := ComputeJalCal(v.div, jy);
    if info.Failure? {
      return Failure(info.error);
    }
    var k := jdn - G2d(v, gy, 3, info.value.march);
    if k >= 0 {
      if k <= 185 {
        return Success(Date(jy, 1 + v.div(k, 31), Mod(v.div, k, 31) + 1));
      }
      k := k - 186;
    } else {
      jy := jy - 1;
      k := k + 179;
      if info.value.leap == 1 {
        k := k + 1;
      }
    }
    r := Success(Date(jy, 7 + v.div(k, 30), Mod(v.div, k, 30) + 1));
  }
}
