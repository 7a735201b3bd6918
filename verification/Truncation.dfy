/** The truncating division of backend/app/common/jalali.py, exact and through binary64. */
module Truncation {

  type Nonzero = b: int | b != 0 witness 1

  /** Any candidate for `_div`; the conversion code takes the one to use as a parameter. */
  type Divider = (int, Nonzero) -> int

  /** The quotient rounded toward zero. */
  function Div(a: int, b: Nonzero): int {
    if a >= 0 then a / b else -((-a) / b)
  }

  /** `_mod`: the remainder that goes with a given division, so it takes the sign of `a`. */
  function Mod(div: Divider, a: int, b: Nonzero): int {
    a - div(a, b) * b
  }

  function Abs(x: int): nat {
    if x < 0 then -x else x
  }

  /** Div is the only quotient whose remainder is smaller than the divisor and has the sign of `a`. */
  lemma TruncationIsUnique(a: int, b: Nonzero, q: int)
    ensures q == Div(a, b) <==> Abs(a - q * b) < Abs(b) && (if a >= 0 then a - q * b >= 0 else a - q * b <= 0)
  {
    if b > 0 {
      TruncationByPositive(a, b, q);
    } else {
      var c := -(b as int);
      TruncationByPositive(a, c, -q);
      NegativeDivisor(a, c);
      assert -q * c == q * b;
    }
  }

  lemma NegativeDivisor(a: int, b: int)
    requires b > 0
    ensures Div(a, -b) == -Div(a, b)
  {
  }

  lemma TruncationByPositive(a: int, b: int, q: int)
    requires b > 0
    ensures q == Div(a, b) <==> (if a >= 0 then 0 <= a - q * b < b else -b < a - q * b <= 0)
  {
    var n := Abs(a);
    var p := n / b;
    assert n == p * b + n % b;
    var k := if a >= 0 then q - p else -q - p;
    assert k * b == (if a >= 0 then q * b - p * b else -(q * b) - p * b);
    SmallMultipleIsZero(k, b, n % b);
  }

  lemma SmallMultipleIsZero(k: int, b: int, r: int)
    requires 0 <= r < b
    ensures 0 <= r - k * b < b <==> k == 0
  {
    if k >= 1 {
      assert (k - 1) * b >= 0;
    } else if k <= -1 {
      assert (-1 - k) * b >= 0;
    }
  }

  // ---------------------------------------------------------------- binary64

  function Pow2(k: nat): (p: int)
    ensures p > 0
  {
    if k == 0 then 1 else 2 * Pow2(k - 1)
  }

  ghost predicate Binary64Parts(x: real, m: int, k: nat) {
    Abs(m) < 0x20_0000_0000_0000 &&
    ((k <= 1074 && x * Pow2(k) as real == m as real) || (k <= 971 && x == m as real * Pow2(k) as real))
  }

  /** The finite binary64 numbers: m * 2^e with |m| < 2^53 and -1074 <= e <= 971. */
  ghost predicate IsBinary64(x: real) {
    exists m: int, k: nat :: Binary64Parts(x, m, k)
  }

  function Distance(x: real, y: real): real {
    if x < y then y - x else x - y
  }

  /** Round to nearest (section 4.3.1 of IEEE 754-2019), whatever the rule for ties. */
  ghost predicate NearestBinary64(x: real, f: real) {
    IsBinary64(f) && forall g: real :: IsBinary64(g) ==> Distance(f, x) <= Distance(g, x)
  }

  /** Python's `int(f)`. */
  function Truncate(f: real): int {
    if f >= 0.0 then f.Floor else -((-f).Floor)
  }

  /** q is the truncation of a correctly rounded quotient. */
  ghost predicate TruncatesRoundedQuotient(a: int, b: Nonzero, q: int) {
    exists f: real :: NearestBinary64(a as real / b as real, f) && q == Truncate(f)
  }

  /** `div` behaves like `int(a / b)` with a correctly rounded binary64 quotient. */
  ghost predicate DividesThroughBinary64(div: Divider) {
    forall a: int, b: Nonzero :: TruncatesRoundedQuotient(a, b, div(a, b))
  }

  lemma NegationStaysBinary64(x: real)
    requires IsBinary64(x)
    ensures IsBinary64(-x)
  {
    var m, k :| Binary64Parts(x, m, k);
    assert Binary64Parts(-x, -m, k);
  }

  lemma NegationStaysNearest(x: real, f: real)
    requires NearestBinary64(x, f)
    ensures NearestBinary64(-x, -f)
  {
    NegationStaysBinary64(f);
    forall g: real | IsBinary64(g)
      ensures Distance(-f, -x) <= Distance(g, -x)
    {
      NegationStaysBinary64(g);
      assert Distance(-g, x) == Distance(g, -x);
    }
  }

  lemma Pow2Values()
    ensures Pow2(0) == 1 && Pow2(24) == 0x100_0000
  {
    assert Pow2(8) == 256;
    assert Pow2(16) == 65536;
  }

  /** The operands for which the quotient's rounding error cannot reach the next integer. */
  predicate SmallOperands(a: int, b: int) {
    Abs(a) <= 0x1000_0000 && 0 < b <= 0x4_0000
  }

  /** The quotient and remainder of naturals, as one linear fact. */
  lemma QuotientAndRemainder(a: nat, b: int)
    requires b > 0
    ensures a == (a / b) * b + a % b && 0 <= a % b < b && 0 <= a / b
  {
  }

  /** A quotient is recognised by its remainder. */
  lemma QuotientIs(a: int, b: int, q: int, r: int)
    requires b > 0 && a == q * b + r && 0 <= r < b
    ensures a / b == q && a % b == r
  {
    var k := a / b - q;
    assert a == (a / b) * b + a % b;
    assert k * b == (a / b) * b - q * b;
    SmallMultipleIsZero(k, b, r);
  }

  lemma FactorIsSmaller(q: int, b: int)
    requires b > 0 && q >= 0
    ensures q <= q * b
  {
    assert q * (b - 1) >= 0;
  }

  lemma RealProduct(a: int, b: int)
    ensures (a * b) as real == a as real * b as real
  {
  }

  lemma OrderByScaling(y: real, z: real, c: real, yc: real, zc: real)
    requires c > 0.0 && yc == y * c && zc == z * c
    ensures y <= z <==> yc <= zc
  {
    if y <= z {
      assert (z - y) * c >= 0.0;
    } else {
      assert (y - z) * c > 0.0;
    }
  }

  /** x = a / b, with a = q * b + r: between its 24-place cut m and the next integer, and far from that one. */
  lemma QuotientGap(a: int, b: int, q: int, r: int, m: int, x: real)
    requires SmallOperands(a, b) && x * b as real == a as real
    requires a == q * b + r && 0 <= r < b
    requires 0 <= a * 0x100_0000 - m * b < b
    ensures m as real <= x * 16777216.0 < m as real + 1.0
    ensures q as real <= x
    ensures if r == 0 then x == q as real else q as real + 1.0 - x >= 1.0 / 262144.0
  {
    RealProduct(m, b);
    RealProduct(q, b);
    ScaledGap(a as real, b as real, q as real, r as real, m as real, x);
    assert r >= 1 || r == 0;
  }

  lemma ScaledGap(a: real, c: real, q: real, r: real, m: real, x: real)
    requires 0.0 < c <= 262144.0 && x * c == a && a == q * c + r && 0.0 <= r
    requires 0.0 <= a * 16777216.0 - m * c < c
    ensures m <= x * 16777216.0 < m + 1.0
    ensures q <= x
    ensures r == 0.0 ==> x == q
    ensures r <= c - 1.0 ==> q + 1.0 - x >= 1.0 / 262144.0
  {
    var y, next, gap, eps := x * 16777216.0, m + 1.0, q + 1.0 - x, 1.0 / 262144.0;
    var mc, qc := m * c, q * c;
    OrderByScaling(m, y, c, mc, a * 16777216.0);
    OrderByScaling(next, y, c, mc + c, a * 16777216.0);
    OrderByScaling(q, x, c, qc, a);
    OrderByScaling(x, q, c, a, qc);
    OrderByScaling(eps, gap, c, c / 262144.0, qc + c - a);
  }

  lemma NearestIsBetween(x: real, q: int, exact: bool, m: int, f: real)
    requires NearestBinary64(x, f)
    requires 0 <= q <= 0x1000_0000 && 0 <= m < 0x20_0000_0000_0000
    requires m as real <= x * 16777216.0 < m as real + 1.0 && q as real <= x
    requires if exact then x == q as real else q as real + 1.0 - x >= 1.0 / 262144.0
    ensures f >= 0.0 && f.Floor == q
  {
    Pow2Values();
    // both the integer part of x and its cut to 24 binary places are binary64 numbers
    assert Binary64Parts(q as real, q, 0);
    assert IsBinary64(q as real);
    var g := m as real / 16777216.0;
    assert Binary64Parts(g, m, 24);
    assert IsBinary64(g);
    assert Distance(f, x) <= Distance(q as real, x);
    assert Distance(f, x) <= Distance(g, x);
    assert q as real <= f < q as real + 1.0;
  }

  lemma RoundedQuotientNonNegative(a: int, b: int, x: real, f: real)
    requires SmallOperands(a, b) && a >= 0 && x * b as real == a as real
    requires NearestBinary64(x, f)
    ensures f >= 0.0 && f.Floor == a / b
  {
    QuotientAndRemainder(a, b);
    QuotientAndRemainder(a * 0x100_0000, b);
    var q, m := a / b, a * 0x100_0000 / b;
    FactorIsSmaller(q, b);
    assert m * b < 0x20_0000_0000_0000;
    FactorIsSmaller(m, b);
    QuotientGap(a, b, q, a % b, m, x);
    NearestIsBetween(x, q, a % b == 0, m, f);
  }

  /** `int(a / b)` through binary64 is exact truncating division for small operands. */
  lemma RoundedQuotientIsExact(a: int, b: int, f: real)
    requires SmallOperands(a, b)
    requires NearestBinary64(a as real / b as real, f)
    ensures Truncate(f) == Div(a, b)
  {
    var x := a as real / b as real;
    if a >= 0 {
      RoundedQuotientNonNegative(a, b, x, f);
    } else {
      NegationStaysNearest(x, f);
      RoundedQuotientNonNegative(-a, b, -x, -f);
    }
  }

  lemma Binary64DividerIsExact(div: Divider, a: int, b: Nonzero)
    requires DividesThroughBinary64(div) && SmallOperands(a, b)
    ensures div(a, b) == Div(a, b)
  {
    assert TruncatesRoundedQuotient(a, b, div(a, b));
    var f: real :| NearestBinary64(a as real / b as real, f) && div(a, b) == Truncate(f);
    RoundedQuotientIsExact(a, b, f);
  }

  // ------------------------------------------------------------------ such a division exists

  function Scaled(m: int, k: nat, down: bool): real {
    if down then m as real / Pow2(k) as real else m as real * Pow2(k) as real
  }

  /** Every finite binary64 number, listed by its parts. */
  ghost function Binary64Numbers(): set<real> {
    set m: int, k: int, down: bool |
      -0x20_0000_0000_0000 < m < 0x20_0000_0000_0000 && 0 <= k <= (if down then 1074 else 971) :: Scaled(m, k, down)
  }

  lemma ScaledIs(x: real, m: int, k: nat)
    ensures x * Pow2(k) as real == m as real <==> x == Scaled(m, k, true)
  {
  }

  lemma Binary64IsListed(x: real)
    ensures IsBinary64(x) <==> x in Binary64Numbers()
  {
    hide Pow2;
    if IsBinary64(x) {
      var m: int, k: nat :| Binary64Parts(x, m, k);
      ScaledIs(x, m, k);
      assert x == Scaled(m, k, true) || x == Scaled(m, k, false);
    }
    if x in Binary64Numbers() {
      var m: int, k: int, down: bool :| -0x20_0000_0000_0000 < m < 0x20_0000_0000_0000 &&
        0 <= k <= (if down then 1074 else 971) && x == Scaled(m, k, down);
      ScaledIs(x, m, k);
      assert Binary64Parts(x, m, k);
    }
  }

  lemma Pick<T>(s: set<T>) returns (x: T)
    requires |s| > 0
    ensures x in s
  {
    x :| x in s;
  }

  /** A finite set of reals has a member nearest to any given real. */
  lemma {:induction false} SomeMemberIsNearest(x: real, s: set<real>) returns (f: real)
    requires |s| > 0
    ensures f in s && forall g <- s :: Distance(f, x) <= Distance(g, x)
    decreases s
  {
    var h := Pick(s);
    if s == {h} {
      f := h;
    } else {
      var rest := s - {h};
      assert s == rest + {h};
      f := SomeMemberIsNearest(x, rest);
      if Distance(h, x) < Distance(f, x) {
        f := h;
      }
    }
  }

  lemma NearestExists(x: real)
    ensures exists f: real :: NearestBinary64(x, f)
  {
    hide Binary64Numbers, IsBinary64, Distance;
    ZeroIsListed();
    var f := SomeMemberIsNearest(x, Binary64Numbers());
    forall g: real
      ensures IsBinary64(g) <==> g in Binary64Numbers()
    {
      Binary64IsListed(g);
    }
    assert NearestBinary64(x, f);
  }

  lemma ZeroIsListed()
    ensures 0.0 in Binary64Numbers()
  {
    assert Binary64Parts(0.0, 0, 0);
    Binary64IsListed(0.0);
  }

  ghost function RoundedQuotient(a: int, b: Nonzero): (f: real)
    ensures NearestBinary64(a as real / b as real, f)
  {
    NearestExists(a as real / b as real);
    var f: real :| NearestBinary64(a as real / b as real, f);
    f
  }

  /** A division that goes through binary64. */
  ghost function Binary64Div(a: int, b: Nonzero): int {
    Truncate(RoundedQuotient(a, b))
  }

  /** What is proved of such divisions is proved of something. */
  lemma SomeDivisionGoesThroughBinary64() returns (div: Divider)
    ensures DividesThroughBinary64(div)
  {
    hide NearestBinary64;
    div := Binary64Div;
    forall a: int, b: Nonzero
      ensures TruncatesRoundedQuotient(a, b, div(a, b))
    {
      assert div(a, b) == Truncate(RoundedQuotient(a, b));
    }
  }
}
