/** The energy and price arithmetic of stopping a session (app/service.py):
    simulated energy from rated power and elapsed time, rounded to three
    decimals of a kWh, and the flat per-kWh tariff. Energy is in whole Wh, so
    rounding to 0.001 kWh is rounding to a whole Wh. */
module Energy {

  /** Price of one kWh. */
  const TariffPerKwh: int := 3000

  /** Rated power assumed when the session's charger is missing: 7.0 kW. */
  const FallbackPowerW: int := 7000

  const SecondsPerHour: int := 3600

  /** n / d rounded to the nearest integer, a tie going to the even neighbour,
      as Python's `round` does. */
  function RoundHalfEven(n: int, d: int): (r: int)
    requires d > 0
    ensures -d <= 2 * (n - r * d) <= d
    ensures 2 * (n - r * d) == d || 2 * (n - r * d) == -d ==> r % 2 == 0
  {
    var q, m := n / d, n % d;
    assert n - q * d == m;
    if 2 * m < d then q
    else if 2 * m > d then q + 1
    else if q % 2 == 0 then q
    else q + 1
  }

  /** The two properties of RoundHalfEven's contract pin it down: no other
      integer is within half of n / d with ties broken to even. */
  lemma RoundHalfEvenUnique(n: int, d: int, r: int)
    requires d > 0
    requires -d <= 2 * (n - r * d) <= d
    requires 2 * (n - r * d) == d || 2 * (n - r * d) == -d ==> r % 2 == 0
    ensures r == RoundHalfEven(n, d)
  {
    NearestOrdered(n, n, d, r, RoundHalfEven(n, d));
    NearestOrdered(n, n, d, RoundHalfEven(n, d), r);
  }

  /** Rounding never reverses the order of two quotients. */
  lemma RoundHalfEvenMonotone(n1: int, n2: int, d: int)
    requires d > 0 && n1 <= n2
    ensures RoundHalfEven(n1, d) <= RoundHalfEven(n2, d)
  {
    NearestOrdered(n1, n2, d, RoundHalfEven(n1, d), RoundHalfEven(n2, d));
  }

  /** If r1 and r2 are half-even roundings of n1 / d and n2 / d, they are in
      the order of n1 and n2. */
  lemma NearestOrdered(n1: int, n2: int, d: int, r1: int, r2: int)
    requires d > 0 && n1 <= n2
    requires -d <= 2 * (n1 - r1 * d) <= d
    requires 2 * (n1 - r1 * d) == d || 2 * (n1 - r1 * d) == -d ==> r1 % 2 == 0
    requires -d <= 2 * (n2 - r2 * d) <= d
    requires 2 * (n2 - r2 * d) == d || 2 * (n2 - r2 * d) == -d ==> r2 % 2 == 0
    ensures r1 <= r2
  {
    if r1 >= r2 + 2 {
      MulMonotone(r2 + 2, r1, d);
      assert false;
    } else if r1 == r2 + 1 {
      MulSucc(r2, d);
      assert false;
    }
  }

  lemma MulSucc(a: int, d: int)
    ensures (a + 1) * d == a * d + d
  {
  }

  lemma MulMonotone(a: int, b: int, d: int)
    requires a <= b && d >= 0
    ensures a * d <= b * d
  {
    assert b * d - a * d == (b - a) * d;
  }

  /** Energy, in whole Wh, delivered by a charger of `powerW` watts over
      `seconds` seconds: round(kW * hours, 3) kWh. It is within half a Wh
      (0.0005 kWh) of the exact value powerW * seconds / 3600. */
  function TotalWh(powerW: int, seconds: int): (wh: int)
    ensures -SecondsPerHour <= 2 * (powerW * seconds - wh * SecondsPerHour) <= SecondsPerHour
  {
    RoundHalfEven(powerW * seconds, SecondsPerHour)
  }

  /** A longer charge on the same non-negative power never yields less energy. */
  lemma TotalWhMonotone(powerW: int, s1: int, s2: int)
    requires powerW >= 0 && s1 <= s2
    ensures TotalWh(powerW, s1) <= TotalWh(powerW, s2)
  {
    MulMonotone(s1, s2, powerW);
    assert powerW * s1 <= powerW * s2;
    RoundHalfEvenMonotone(powerW * s1, powerW * s2, SecondsPerHour);
  }

  /** When the exact energy is a whole number of Wh, no rounding happens. */
  lemma TotalWhExact(powerW: int, seconds: int, wh: int)
    requires powerW * seconds == wh * SecondsPerHour
    ensures TotalWh(powerW, seconds) == wh
  {
    RoundHalfEvenUnique(powerW * seconds, SecondsPerHour, wh);
  }

  /** The price of `totalWh` Wh: total_kwh times the tariff, exactly. */
  function Cost(totalWh: int): (amount: int)
    ensures amount * 1000 == totalWh * TariffPerKwh
  {
    totalWh * TariffPerKwh / 1000
  }
}
