/** Attendance hours are rounded to a unit of minutes and then to four decimal places. */
module HoursRounding {
  import opened Rounding

  /** `round_decimal_places` with four places. */
  function FourPlaces(x: real): real {
    RoundTies(x * 10000.0) as real / 10000.0
  }

  function Unit(minutes: int): int {
    if minutes < 1 then 1 else minutes
  }

  /** How many units of minutes the hours are rounded to. */
  function Units(hours: real, minutes: int): int {
    RoundTies(hours * 60.0 / Unit(minutes) as real)
  }

  /** The minutes, as hours. */
  function InHours(minutes: int): real {
    minutes as real / 60.0
  }

  /** `round_hours` */
  function RoundHours(hours: real, minutes: int): real {
    if hours <= 0.0 then 0.0
    else FourPlaces(InHours(Units(hours, minutes) * Unit(minutes)))
  }

  /** Sixtieths of an hour never tie in the fifth place: four places are a third of a step off
      at the most. */
  lemma FourPlacesOfMinutes(minutes: int)
    ensures Abs(FourPlaces(InHours(minutes)) - InHours(minutes)) <= 1.0 / 30000.0
  {
    var x := minutes as real / 60.0 * 10000.0;
    assert x * 3.0 == (minutes * 500) as real;
    IntegerFloor(minutes * 500);
    assert IsFraction(x, 3);
    RoundTiesOnFractions(x, 3);
    var n := HalfEven(x);
    assert (minutes * 500 - 3 * n) as real == 3.0 * (x - n as real);
    assert Abs(x - n as real) <= 0.5;
  }

  lemma IntegerFloor(n: int)
    ensures (n as real).Floor == n
  {
    FloorIs(n as real, n);
  }

  lemma UnitsError(hours: real, minutes: int)
    requires 1 <= minutes
    ensures Abs(InHours(Units(hours, minutes) * minutes) - hours) <= (0.5 + EPSILON) * minutes as real / 60.0
  {
    var u, y := minutes as real, hours * 60.0 / minutes as real;
    RoundingError(y);
    Undivide(hours * 60.0, u);
    Products(RoundTies(y), minutes, y, hours * 60.0);
  }

  lemma Undivide(x: real, u: real)
    requires u > 0.0
    ensures x / u * u == x
  {
  }

  lemma Products(k: int, minutes: int, y: real, x: real)
    requires 1 <= minutes && y * minutes as real == x && Abs(k as real - y) <= 0.5 + EPSILON
    ensures Abs((k * minutes) as real - x) <= (0.5 + EPSILON) * minutes as real
  {
    var u, d := minutes as real, k as real - y;
    var kr, bound := k as real, 0.5 + EPSILON;
    Scale(d, bound, u);
    assert d * u == kr * u - x by { Spread(kr, y, u); }
    assert kr * u == (k * minutes) as real;
  }

  lemma Spread(a: real, b: real, u: real)
    ensures (a - b) * u == a * u - b * u
  {
  }

  lemma Scale(d: real, bound: real, u: real)
    requires u > 0.0 && Abs(d) <= bound
    ensures Abs(d * u) <= bound * u
  {
    assert Abs(d * u) == Abs(d) * u;
  }

  /** Rounding moves positive hours by no more than half a unit and half a step of the fourth
      place. */
  lemma RoundHoursError(hours: real, minutes: int)
    requires hours > 0.0 && 1 <= minutes <= 60
    ensures Abs(RoundHours(hours, minutes) - hours) <= minutes as real / 120.0 + 0.00005
  {
    var n := Units(hours, minutes) * minutes;
    UnitsError(hours, minutes);
    FourPlacesOfMinutes(n);
    Triangle(FourPlaces(InHours(n)), InHours(n), hours, minutes as real);
  }

  lemma Triangle(r: real, n: real, hours: real, minutes: real)
    requires minutes <= 60.0 && Abs(r - n) <= 1.0 / 30000.0 && Abs(n - hours) <= (0.5 + EPSILON) * minutes / 60.0
    ensures Abs(r - hours) <= minutes / 120.0 + 0.00005
  {
  }

  /** More hours are never rounded to fewer. */
  lemma RoundHoursMonotone(a: real, b: real, minutes: int)
    requires a <= b
    ensures 0.0 <= RoundHours(a, minutes) <= RoundHours(b, minutes)
  {
    NotNegative(a, minutes);
    NotNegative(b, minutes);
    if a > 0.0 {
      UnitsMonotone(a, b, minutes);
      MinutesMonotone(Units(a, minutes), Units(b, minutes), Unit(minutes));
    }
  }

  lemma UnitsMonotone(a: real, b: real, minutes: int)
    requires a <= b
    ensures Units(a, minutes) <= Units(b, minutes)
  {
    var u := Unit(minutes) as real;
    Divide(a * 60.0, b * 60.0, u);
    RoundTiesMonotone(a * 60.0 / u, b * 60.0 / u);
  }

  lemma Divide(a: real, b: real, u: real)
    requires a <= b && u > 0.0
    ensures a / u <= b / u
  {
  }

  lemma MinutesMonotone(k: int, l: int, unit: int)
    requires k <= l && unit >= 1
    ensures FourPlaces(InHours(k * unit)) <= FourPlaces(InHours(l * unit))
  {
    assert k * unit <= l * unit;
    FourPlacesMonotone(InHours(k * unit), InHours(l * unit));
  }

  lemma FourPlacesMonotone(x: real, y: real)
    requires x <= y
    ensures FourPlaces(x) <= FourPlaces(y)
  {
    RoundTiesMonotone(x * 10000.0, y * 10000.0);
  }

  lemma NoUnits(minutes: int)
    ensures Units(0.0, minutes) == 0
  {
    assert 0.0 * 60.0 / Unit(minutes) as real == 0.0;
    IntegerFloor(0);
  }

  lemma NotNegative(hours: real, minutes: int)
    ensures RoundHours(hours, minutes) >= 0.0
  {
    if hours > 0.0 {
      NoUnits(minutes);
      UnitsMonotone(0.0, hours, minutes);
      MinutesMonotone(0, Units(hours, minutes), Unit(minutes));
      IntegerFloor(0);
      assert FourPlaces(InHours(0)) == 0.0;
    }
  }

  lemma CloseToInteger(x: real, n: int)
    requires Abs(x - n as real) < 0.25
    ensures RoundTies(x) == n
  {
    if x >= n as real {
      FloorIs(x, n);
    } else {
      FloorIs(x, n - 1);
    }
  }

  /** Rounded hours stay as they are when rounded again. */
  lemma RoundHoursIdempotent(hours: real, minutes: int)
    requires 1 <= minutes <= 60
    ensures RoundHours(RoundHours(hours, minutes), minutes) == RoundHours(hours, minutes)
  {
    NotNegative(hours, minutes);
    if hours > 0.0 {
      var k, r := Units(hours, minutes), RoundHours(hours, minutes);
      FourPlacesOfMinutes(k * minutes);
      UnitsOfRounded(r, k, minutes);
    }
  }

  lemma UnitsOfRounded(r: real, k: int, minutes: int)
    requires 1 <= minutes && Abs(r - InHours(k * minutes)) <= 1.0 / 30000.0
    ensures Units(r, minutes) == k
  {
    var u := minutes as real;
    assert k as real * u == (k * minutes) as real;
    Nearby(r * 60.0, k as real, u);
    CloseToInteger(r * 60.0 / u, k);
  }

  lemma Nearby(x: real, k: real, u: real)
    requires u >= 1.0 && Abs(x - k * u) <= 0.002
    ensures Abs(x / u - k) < 0.25
  {
    Undivide(x, u);
    var d := x / u - k;
    assert d * u == x - k * u;
    assert Abs(d * u) == Abs(d) * u;
    assert Abs(d) <= Abs(d) * u;
  }

  /** Hours that are a fraction of the unit with a denominator up to 2^51 go to the nearest number
      of units, and from the middle to the even one; these are given in hours, to four decimal
      places and again half to even. */
  lemma RoundHoursIsHalfEven(hours: real, minutes: int, q: int, units: int, places: int)
    requires hours > 0.0 && minutes >= 1 && IsFraction(60.0 * hours / minutes as real, q) && q <= TIES_LIMIT
    requires NearestEven(60.0 * hours / minutes as real, units)
    requires NearestEven((units * minutes) as real * 10000.0 / 60.0, places)
    ensures RoundHours(hours, minutes) == places as real / 10000.0
  {
    var x, y := 60.0 * hours / minutes as real, (units * minutes) as real * 10000.0 / 60.0;
    RoundTiesOnFractions(x, q);
    NearestEvenUnique(x, units, RoundTies(x));
    assert Units(hours, minutes) == units;
    PlacesOfMinutes(units * minutes, places);
  }

  lemma PlacesOfMinutes(minutes: int, places: int)
    requires NearestEven(minutes as real * 10000.0 / 60.0, places)
    ensures FourPlaces(InHours(minutes)) == places as real / 10000.0
  {
    var x := minutes as real / 60.0 * 10000.0;
    assert x == minutes as real * 10000.0 / 60.0;
    assert x * 3.0 == (minutes * 500) as real;
    IntegerFloor(minutes * 500);
    assert IsFraction(x, 3);
    RoundTiesOnFractions(x, 3);
    NearestEvenUnique(x, places, RoundTies(x));
  }
}
