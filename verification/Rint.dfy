/** rint() of my_global.h, over the real numbers: modf() splits exactly, and so does adding one to an integer part that
    has a fraction beside it. */
module Rint {
  import opened Binary

  const MAX_EXACT_INTEGER: int := 0x1F_FFFF_FFFF_FFFF

  /** The integer part of `x`, towards zero. */
  function Trunc(x: real): int {
    if x >= 0.0 then x.Floor else -((-x).Floor)
  }

  /** modf(): the fraction, with the sign of `x`, and the integer part. */
  function Modf(x: real): (p: (real, int))
    ensures p.0 + p.1 as real == x
    ensures if x >= 0.0 then 0.0 <= p.0 < 1.0 && p.1 >= 0 else -1.0 < p.0 <= 0.0 && p.1 <= 0
  {
    (x - Trunc(x) as real, Trunc(x))
  }

  /** The remainder of C, which has the sign of the dividend. */
  function Rem2(a: int): int {
    if a >= 0 then a % 2 else -(-a % 2)
  }

  method RoundToInteger(x: real) returns (r: real)
    ensures r == Rounded(x) as real
    ensures exists n :: r == n as real && Nearest(x, n)
    ensures IsDouble(x) ==> exists n :: r == n as real && NearestEven(x, n)
  {
    RoundsToNearestEvenIff(x);
    if IsDouble(x) {
      DoublesRoundToNearestEven(x);
    }
    var (f, i) := Modf(x);
    ModfFloor(x);
    if x > 0.0 {
      i := i + if f > 0.5 || (f == 0.5 && i <= MAX_EXACT_INTEGER && Rem2(i) != 0) then 1 else 0;
    } else {
      i := i - if f < -0.5 || (f == -0.5 && i >= -MAX_EXACT_INTEGER && Rem2(i) != 0) then 1 else 0;
    }
    r := i as real;
  }

  // ---------- What it rounds to ----------

  function Fraction(x: real): (d: real)
    ensures 0.0 <= d < 1.0
  {
    x - x.Floor as real
  }

  lemma ModfFloor(x: real)
    ensures x >= 0.0 ==> Trunc(x) == x.Floor
    ensures x < 0.0 ==> Trunc(x) == x.Floor + if Fraction(x) == 0.0 then 0 else 1
  {
    if x < 0.0 {
      var n := x.Floor;
      FloorIs(-x, if Fraction(x) == 0.0 then -n else -n - 1);
    }
  }

  lemma FloorIs(x: real, n: int)
    requires n as real <= x < n as real + 1.0
    ensures x.Floor == n
  {
  }

  predicate Tie(x: real) {
    Fraction(x) == 0.5
  }

  /** A half whose integer part the code takes to be even without looking. */
  predicate FarTie(x: real) {
    Tie(x) && !(-MAX_EXACT_INTEGER <= Trunc(x) <= MAX_EXACT_INTEGER)
  }

  /** Down, up, or at a half the even one of the two; far away the one nearer to 0. */
  function Rounded(x: real): int {
    if Fraction(x) < 0.5 then x.Floor
    else if Fraction(x) > 0.5 then x.Floor + 1
    else if FarTie(x) then Trunc(x)
    else if x.Floor % 2 == 0 then x.Floor else x.Floor + 1
  }

  function Distance(x: real, n: int): real {
    if x >= n as real then x - n as real else n as real - x
  }

  /** As near to `x` as any integer is. */
  ghost predicate Nearest(x: real, n: int) {
    forall other :: Distance(x, n) <= Distance(x, other)
  }

  lemma NearestIff(x: real, n: int)
    ensures Nearest(x, n) <==> Distance(x, n) <= 0.5
  {
    if Distance(x, n) <= 0.5 {
      forall other
        ensures Distance(x, n) <= Distance(x, other)
      {
        Closer(x, n, other);
      }
    } else {
      WithinHalf(x);
    }
  }

  lemma WithinHalf(x: real)
    ensures exists m :: Distance(x, m) <= 0.5
  {
    var m := x.Floor + if Fraction(x) <= 0.5 then 0 else 1;
    assert Distance(x, m) <= 0.5;
  }

  lemma Closer(x: real, n: int, other: int)
    requires Distance(x, n) <= 0.5
    ensures Distance(x, n) <= Distance(x, other)
  {
    if n < other {
      assert other as real >= n as real + 1.0;
    } else if other < n {
      assert n as real >= other as real + 1.0;
    }
  }

  /** The nearest integer, and of two the even one. */
  ghost predicate NearestEven(x: real, n: int) {
    Nearest(x, n) && (Tie(x) ==> n % 2 == 0)
  }

  /** Only one integer is nearest with ties to even. */
  lemma NearestEvenIsUnique(x: real, m: int, n: int)
    requires NearestEven(x, m) && NearestEven(x, n)
    ensures m == n
  {
    NearestIff(x, m);
    NearestIff(x, n);
    NearestFloor(x, m);
    NearestFloor(x, n);
  }

  lemma NearestFloor(x: real, n: int)
    requires Distance(x, n) <= 0.5
    ensures (n == x.Floor && Fraction(x) <= 0.5) || (n == x.Floor + 1 && Fraction(x) >= 0.5)
  {
    FloorIs(x, if x >= n as real then n else n - 1);
  }

  /** The result is always nearest; it is the even one of two exactly unless the half lies beyond
      MAX_EXACT_INTEGER and its integer part is odd. */
  lemma RoundsToNearestEvenIff(x: real)
    ensures Nearest(x, Rounded(x))
    ensures NearestEven(x, Rounded(x)) <==> !(FarTie(x) && Trunc(x) % 2 != 0)
  {
    ModfFloor(x);
    NearestIff(x, Rounded(x));
  }

  // ---------- Floating-point numbers ----------

  /** 53 bits and an exponent. */
  ghost predicate IsDouble(x: real) {
    exists m: int, k: nat :: 0 - Pow2(53) < m < Pow2(53) && Scaled(x, m, k)
  }

  /** The limit of the code is the largest number of 53 bits. */
  lemma LimitIs53Bits()
    ensures Pow2(53) == MAX_EXACT_INTEGER + 1
  {
    assert Pow2(13) == 0x2000;
    assert Pow2(20) == 0x10_0000;
    Pow2Add(20, 20);
    Pow2Add(40, 13);
  }

  ghost predicate Scaled(x: real, m: int, k: nat) {
    x == (m * Pow2(k)) as real || x * Pow2(k) as real == m as real
  }

  /** No floating-point number is a half so far out, so for them the shortcut is sound. */
  lemma DoublesRoundToNearestEven(x: real)
    requires IsDouble(x)
    ensures NearestEven(x, Rounded(x))
  {
    RoundsToNearestEvenIff(x);
    if x == x.Floor as real {
      IntegersAreNoTies(x.Floor);
    } else {
      var m := FractionsAreSmall(x);
      SmallIsNear(x, m);
    }
  }

  lemma FractionsAreSmall(x: real) returns (m: int)
    requires IsDouble(x) && x != x.Floor as real
    ensures -MAX_EXACT_INTEGER <= m <= MAX_EXACT_INTEGER
    ensures (if x >= 0.0 then x else -x) <= (if m >= 0 then m else -m) as real
  {
    var k: nat;
    m, k :| 0 - Pow2(53) < m < Pow2(53) && Scaled(x, m, k);
    LimitIs53Bits();
    ScaledCases(x, m, k);
  }

  lemma ScaledCases(x: real, m: int, k: nat)
    requires Scaled(x, m, k) && x != x.Floor as real
    ensures (if x >= 0.0 then x else -x) <= (if m >= 0 then m else -m) as real
  {
    var n := m * Pow2(k);
    if x == n as real {
      FloorIs(x, n);
    } else {
      ScaledDown(x, m, Pow2(k));
    }
  }

  lemma IntegersAreNoTies(n: int)
    ensures !Tie(n as real)
  {
    FloorIs(n as real, n);
  }

  lemma SmallIsNear(x: real, m: int)
    requires -MAX_EXACT_INTEGER <= m <= MAX_EXACT_INTEGER
    requires (if x >= 0.0 then x else -x) <= (if m >= 0 then m else -m) as real
    ensures !FarTie(x)
  {
    ModfFloor(x);
  }

  lemma ScaledDown(x: real, m: int, p: nat)
    requires p > 0 && x * p as real == m as real
    ensures (if x >= 0.0 then x else -x) <= (if m >= 0 then m else -m) as real
  {
    if x >= 0.0 {
      assert x * p as real == x + x * (p as real - 1.0);
      assert x * (p as real - 1.0) >= 0.0;
    } else {
      assert (-x) * p as real == -(x * p as real);
      assert (-x) * p as real == -x + (-x) * (p as real - 1.0);
      assert (-x) * (p as real - 1.0) >= 0.0;
    }
  }

  // ---------- Order, sign, fixed points ----------

  lemma Monotone(x: real, y: real)
    requires x <= y
    ensures Rounded(x) <= Rounded(y)
  {
    if x.Floor == y.Floor {
      assert Fraction(x) <= Fraction(y);
    } else {
      assert x.Floor < y.Floor;
    }
  }

  /** The two sign branches mirror each other. */
  lemma Odd(x: real)
    ensures Rounded(-x) == -Rounded(x)
  {
    ModfFloor(x);
    ModfFloor(-x);
    var n := x.Floor;
    FloorIs(-x, if Fraction(x) == 0.0 then -n else -n - 1);
  }

  /** The integers are the fixed points, and every result is one. */
  lemma Idempotent(x: real)
    ensures Rounded(Rounded(x) as real) == Rounded(x)
    ensures Rounded(x) as real == x <==> Trunc(x) as real == x
  {
    IntegersStay(Rounded(x));
    if Trunc(x) as real == x {
      IntegersStay(Trunc(x));
    } else if Rounded(x) as real == x {
      FloorIs(x, Rounded(x));
      ModfFloor(x);
    }
  }

  lemma IntegersStay(n: int)
    ensures Rounded(n as real) == n
  {
    FloorIs(n as real, n);
  }
}
