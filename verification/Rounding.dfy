/** The two rounders of the payroll crate.  Both mean to round half to even, and both accept a
    tolerance around a tie; amounts and hours are exact reals here. */
module Rounding {

  const EPSILON: real := 1.0 / 4503599627370496.0 // f64::EPSILON

  const WON_TOLERANCE: real := 0.000000001

  function Abs(x: real): real {
    if x < 0.0 then -x else x
  }

  function EvenOf(n: int): int {
    if n % 2 == 0 then n else n + 1
  }

  /** `round_ties_even` of attendance and fixed hours. */
  function RoundTies(x: real): int {
    var fraction := x - x.Floor as real;
    if fraction < 0.5 - EPSILON then x.Floor
    else if fraction > 0.5 + EPSILON then x.Floor + 1
    else EvenOf(x.Floor)
  }

  /** `f64::round`: half away from zero. */
  function RoundAway(x: real): int {
    if x >= 0.0 then (x + 0.5).Floor else -((0.5 - x).Floor)
  }

  /** `round_ties_even` of deductions and earnings. */
  function RoundWon(x: real): int {
    var diff := x - x.Floor as real;
    if Abs(diff - 0.5) < WON_TOLERANCE then EvenOf(x.Floor) else RoundAway(x)
  }

  // ------------------------------------------------------- what is promised

  /** `n` is nearest to `x`, and even if another integer is as near. */
  predicate NearestEven(x: real, n: int) {
    && Abs(x - n as real) <= 0.5
    && (Abs(x - n as real) == 0.5 ==> n % 2 == 0)
  }

  lemma NearestEvenUnique(x: real, m: int, n: int)
    requires NearestEven(x, m) && NearestEven(x, n)
    ensures m == n
  {
    assert Abs((m - n) as real) <= 1.0;
    assert m as real - n as real == (m - n) as real;
  }

  function HalfEven(x: real): (n: int)
    ensures NearestEven(x, n)
  {
    var fraction := x - x.Floor as real;
    if fraction < 0.5 then x.Floor
    else if fraction > 0.5 then x.Floor + 1
    else EvenOf(x.Floor)
  }

  // ------------------------------------------- where the rounders fall short

  /** How far `x` is from the tie between its two neighbours. */
  function FromTie(x: real): real {
    Abs(x - x.Floor as real - 0.5)
  }

  lemma RoundAwayOffTies(x: real)
    requires FromTie(x) != 0.0
    ensures RoundAway(x) == HalfEven(x)
  {
    var n := x.Floor;
    if x >= 0.0 {
      FloorIs(x + 0.5, if x - n as real < 0.5 then n else n + 1);
    } else {
      FloorIs(0.5 - x, if x - n as real < 0.5 then -n else -n - 1);
    }
  }

  lemma FloorIs(x: real, n: int)
    requires n as real <= x < n as real + 1.0
    ensures x.Floor == n
  {
    assert x.Floor as real <= x < x.Floor as real + 1.0;
    assert (x.Floor - n) as real == x.Floor as real - n as real;
  }

  /** A rounder misses the nearest integer exactly when that integer is odd and the argument is
      within the tolerance of a tie. */
  lemma RoundTiesExact(x: real)
    ensures RoundTies(x) == HalfEven(x) <==> !(FromTie(x) <= EPSILON && HalfEven(x) % 2 == 1)
  {
  }

  lemma RoundWonExact(x: real)
    ensures RoundWon(x) == HalfEven(x) <==> !(FromTie(x) < WON_TOLERANCE && HalfEven(x) % 2 == 1)
  {
    if FromTie(x) >= WON_TOLERANCE {
      RoundAwayOffTies(x);
    }
  }

  /** The two rounders disagree exactly between the tolerances, next to an odd integer. */
  lemma RoundersAgree(x: real)
    ensures RoundTies(x) == RoundWon(x) <==> !(EPSILON < FromTie(x) < WON_TOLERANCE && HalfEven(x) % 2 == 1)
  {
    RoundTiesExact(x);
    RoundWonExact(x);
  }

  // ------------------------------------------------------ the amounts at hand

  /** `x` is a fraction with denominator `q`. */
  predicate IsFraction(x: real, q: int) {
    q > 0 && (x * q as real).Floor as real == x * q as real
  }

  /** A fraction with denominator `q` is on a tie or at least `1 / 2q` away from it. */
  lemma FractionsAvoidTies(x: real, q: int)
    requires IsFraction(x, q)
    ensures FromTie(x) == 0.0 || FromTie(x) * (2 * q) as real >= 1.0
  {
    var p := (x * q as real).Floor;
    var n, d := x.Floor, x - x.Floor as real - 0.5;
    var k := 2 * p - 2 * q * n - q;
    Distribute(x, n, q as real);
    assert (n as real) * (q as real) == (n * q) as real;
    assert d * (2 * q) as real == k as real;
    if k != 0 {
      Signs(d, (2 * q) as real, k);
    } else if d != 0.0 {
      Signs(d, (2 * q) as real, k);
    }
  }

  lemma Distribute(x: real, n: int, q: real)
    ensures (x - n as real - 0.5) * (2.0 * q) == 2.0 * (x * q) - 2.0 * (n as real * q) - q
  {
  }

  lemma Signs(d: real, q: real, k: int)
    requires q > 0.0 && d * q == k as real
    ensures k != 0 ==> Abs(d) * q >= 1.0
    ensures k == 0 ==> d == 0.0
  {
    assert Abs(d) * q == Abs(d * q);
    if d != 0.0 {
      assert Abs(d) * q > 0.0;
    }
  }

  lemma CloserThan(x: real, q: int, bound: int, tolerance: real)
    requires IsFraction(x, q) && q <= bound && 0.0 < tolerance && tolerance * (2 * bound) as real <= 1.0
    ensures FromTie(x) == 0.0 || FromTie(x) >= tolerance
  {
    FractionsAvoidTies(x, q);
    if 0.0 < FromTie(x) < tolerance {
      Shrink(FromTie(x), tolerance, (2 * q) as real, (2 * bound) as real);
      assert false;
    }
  }

  lemma Shrink(d: real, t: real, q: real, b: real)
    requires 0.0 <= d < t && 0.0 < q <= b
    ensures d * q < t * b
  {
    assert d * q < t * q;
    assert t * q <= t * b;
  }

  const TIES_LIMIT := 0x8_0000_0000_0000 // 2^51

  const WON_LIMIT := 500_000_000

  /** Every fraction with a denominator up to 2^51 is rounded exactly. */
  lemma RoundTiesOnFractions(x: real, q: int)
    requires IsFraction(x, q) && q <= TIES_LIMIT
    ensures RoundTies(x) == HalfEven(x)
  {
    if q < TIES_LIMIT {
      FractionsAvoidTies(x, q);
      if 0.0 < FromTie(x) <= EPSILON {
        Shrink(FromTie(x), 1.0 / (2 * TIES_LIMIT - 1) as real, (2 * q) as real, (2 * TIES_LIMIT - 2) as real);
      }
    } else {
      EvenDenominator(x, q / 2);
    }
    RoundTiesExact(x);
  }

  /** With an even denominator `2h` the distance from a tie is a multiple of `1 / 2h`. */
  lemma EvenDenominator(x: real, h: int)
    requires h > 0 && IsFraction(x, 2 * h)
    ensures FromTie(x) == 0.0 || FromTie(x) * (2 * h) as real >= 1.0
  {
    var p := (x * (2 * h) as real).Floor;
    var n, d := x.Floor, x - x.Floor as real - 0.5;
    var k := p - 2 * h * n - h;
    Distribute(x, n, h as real);
    assert x * (2 * h) as real == 2.0 * (x * h as real);
    assert (n as real) * (h as real) == (h * n) as real;
    assert d * (2 * h) as real == k as real;
    Signs(d, (2 * h) as real, k);
  }

  /** Every fraction with a denominator up to five hundred million is rounded exactly. */
  lemma RoundWonOnFractions(x: real, q: int)
    requires IsFraction(x, q) && q <= WON_LIMIT
    ensures RoundWon(x) == HalfEven(x)
  {
    CloserThan(x, q, WON_LIMIT, WON_TOLERANCE);
    RoundWonExact(x);
  }

  /** On the fractions with a denominator up to 10^8, negative ones included, both rounders are
      exact half-to-even rounding, so they agree. */
  lemma BothExactOnFractions(x: real, q: int)
    requires IsFraction(x, q) && q <= 100_000_000
    ensures RoundTies(x) == RoundWon(x) == HalfEven(x)
    ensures NearestEven(x, RoundTies(x))
  {
    RoundTiesOnFractions(x, q);
    RoundWonOnFractions(x, q);
  }

  /** The bound on the denominator cannot be raised by one. */
  lemma WonLimitIsSharp()
    ensures var x := 250_000_001.0 / 500_000_001.0;
            IsFraction(x, WON_LIMIT + 1) && RoundWon(x) == 0 && HalfEven(x) == 1
  {
    var x := 250_000_001.0 / 500_000_001.0;
    assert x * (WON_LIMIT + 1) as real == 250_000_001.0;
    FloorIs(250_000_001.0, 250_000_001);
    FloorIs(x, 0);
  }

  lemma TiesLimitIsSharp()
    ensures var x := (TIES_LIMIT / 2 + 1) as real / (TIES_LIMIT + 1) as real;
            IsFraction(x, TIES_LIMIT + 1) && RoundTies(x) == 0 && HalfEven(x) == 1
  {
    var x := (TIES_LIMIT / 2 + 1) as real / (TIES_LIMIT + 1) as real;
    assert x * (TIES_LIMIT + 1) as real == (TIES_LIMIT / 2 + 1) as real;
    FloorIs((TIES_LIMIT / 2 + 1) as real, TIES_LIMIT / 2 + 1);
    FloorIs(x, 0);
  }

  // ------------------------------------------------------------ on all reals

  /** A larger argument is never rounded to less, near ties included. */
  lemma RoundTiesMonotone(x: real, y: real)
    requires x <= y
    ensures RoundTies(x) <= RoundTies(y)
  {
    FloorMonotone(x, y);
  }

  lemma RoundWonMonotone(x: real, y: real)
    requires x <= y
    ensures RoundWon(x) <= RoundWon(y)
  {
    FloorMonotone(x, y);
    RoundWonCases(x);
    RoundWonCases(y);
  }

  lemma FloorMonotone(x: real, y: real)
    requires x <= y
    ensures x.Floor <= y.Floor
    ensures x.Floor == y.Floor || x.Floor + 1 <= y.Floor
  {
    assert x.Floor as real <= x < x.Floor as real + 1.0;
    assert y.Floor as real <= y < y.Floor as real + 1.0;
    assert (y.Floor + 1 - x.Floor) as real > 0.0;
  }

  lemma RoundWonCases(x: real)
    ensures var fraction := x - x.Floor as real;
            RoundWon(x) == if fraction <= 0.5 - WON_TOLERANCE then x.Floor
                           else if fraction >= 0.5 + WON_TOLERANCE then x.Floor + 1
                           else EvenOf(x.Floor)
  {
    if FromTie(x) >= WON_TOLERANCE {
      RoundAwayOffTies(x);
    }
  }

  /** Rounding does not prefer one sign over the other. */
  lemma RoundersAreOdd(x: real)
    ensures RoundTies(-x) == -RoundTies(x)
    ensures RoundWon(-x) == -RoundWon(x)
  {
    var n := x.Floor;
    if x == n as real {
      FloorIs(-x, -n);
    } else {
      FloorIs(-x, -n - 1);
    }
    RoundWonCases(x);
    RoundWonCases(-x);
  }

  /** No argument is moved by more than half and the tolerance. */
  lemma RoundingError(x: real)
    ensures Abs(RoundTies(x) as real - x) <= 0.5 + EPSILON
    ensures Abs(RoundWon(x) as real - x) <= 0.5 + WON_TOLERANCE
  {
    RoundWonCases(x);
  }

  // ------------------------------------------------------ the tolerances

  /** How far above a half the even neighbour is still taken: up to 2^-52 by the one rounder, and
      up to but not including 10^-9 by the other. */
  lemma TolerancesAboveHalf(e: real)
    requires 0.0 <= e < 0.5
    ensures RoundTies(0.5 + e) == if 4503599627370496.0 * e <= 1.0 then 0 else 1
    ensures RoundWon(0.5 + e) == if 1000000000.0 * e < 1.0 then 0 else 1
  {
    FloorIs(0.5 + e, 0);
    FloorIs(1.0 + e, 1);
  }

  /** Rounding halves away from zero. */
  lemma HalvesAway(n: nat)
    ensures RoundAway(n as real + 0.5) == n + 1 && RoundAway(-(n as real + 0.5)) == -(n + 1)
  {
    FloorIs(n as real + 1.0, n + 1);
  }
}
