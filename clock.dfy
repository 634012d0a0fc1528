/** The three numbers the timer face shows, derived from the remaining
    number of seconds.  The source computes each of them on floating-point
    numbers: an exact division, JavaScript's `%` (whose result takes the
    sign of the dividend) and `Math.floor`.  The model does the same on
    exact reals, so it also says what is shown for a negative count. */
module Clock {

  const SecondsPerMinute: int := 60
  const SecondsPerHour: int := 3600
  const HoursPerDay: int := 24
  const SecondsPerDay: int := 86400

  /** Rounding toward zero, as JavaScript's `%` uses for its quotient. */
  function Trunc(x: real): (r: int)
    ensures x >= 0.0 ==> r as real <= x < r as real + 1.0
    ensures x < 0.0 ==> r as real - 1.0 < x <= r as real
  {
    if x >= 0.0 then x.Floor else -((-x).Floor)
  }

  /** JavaScript's remainder `x % d` for a positive divisor: `x` less a
      whole multiple of `d`, with the sign of `x` and a magnitude below `d`. */
  function FloatRem(x: real, d: real): (r: real)
    requires d > 0.0
    ensures ((x - r) / d).Floor as real == (x - r) / d
    ensures x >= 0.0 ==> 0.0 <= r < d
    ensures x < 0.0 ==> -d < r <= 0.0
  {
    var q := Trunc(x / d);
    TruncMultiple(x, d, q);
    x - q as real * d
  }

  /** `q * d`, for `q` the truncated quotient of `x` by `d`, is a whole
      multiple of `d` lying between 0 and `x`, less than `d` away from `x`. */
  lemma TruncMultiple(x: real, d: real, q: int)
    requires d > 0.0 && q == Trunc(x / d)
    ensures (q as real * d / d).Floor as real == q as real * d / d
    ensures x >= 0.0 ==> q as real * d <= x < q as real * d + d
    ensures x < 0.0 ==> q as real * d - d < x <= q as real * d
  {
    assert q as real * d / d == q as real;
    MulBounds(x / d, d);
    assert x / d * d == x;
    if x >= 0.0 {
      ScaleFloor(q as real, x, d);
    } else {
      ScaleCeiling(q as real, x, d);
    }
  }

  /** Multiplying `a` by a positive `d` keeps its position relative to 0 and to 1 and -1. */
  lemma MulBounds(a: real, d: real)
    requires d > 0.0
    ensures a >= 0.0 ==> a * d >= 0.0
    ensures a <= 0.0 ==> a * d <= 0.0
    ensures a < 1.0 ==> a * d < d
    ensures a > -1.0 ==> -d < a * d
  {
    assert (1.0 - a) * d == d - a * d;
    assert (a + 1.0) * d == a * d + d;
  }

  /** `q` is the floor of `x / d`, so `q * d` is the multiple of `d` just below `x`. */
  lemma ScaleFloor(q: real, x: real, d: real)
    requires d > 0.0 && q <= x / d < q + 1.0
    ensures q * d <= x < q * d + d
  {
    var a := x / d - q;
    assert a * d == x - q * d;
    MulBounds(a, d);
  }

  /** `q` is the ceiling of `x / d`, so `q * d` is the multiple of `d` just above `x`. */
  lemma ScaleCeiling(q: real, x: real, d: real)
    requires d > 0.0 && q - 1.0 < x / d <= q
    ensures q * d - d < x <= q * d
  {
    var a := x / d - q;
    assert a * d == x - q * d;
    MulBounds(a, d);
  }

  /** `Math.floor((time / (60 * 60)) % 24)` */
  function Hours(time: int): (h: int)
    ensures time >= 0 ==> 0 <= h < HoursPerDay
    ensures time < 0 ==> -HoursPerDay <= h <= 0
  {
    FloatRem(time as real / SecondsPerHour as real, HoursPerDay as real).Floor
  }

  /** `Math.floor((time / 60) % 60)` */
  function Minutes(time: int): (m: int)
    ensures time >= 0 ==> 0 <= m < SecondsPerMinute
    ensures time < 0 ==> -SecondsPerMinute <= m <= 0
  {
    FloatRem(time as real / SecondsPerMinute as real, SecondsPerMinute as real).Floor
  }

  /** `Math.floor(time % 60)` */
  function Seconds(time: int): (s: int)
    ensures time >= 0 ==> 0 <= s < SecondsPerMinute
    ensures time < 0 ==> -SecondsPerMinute <= s <= 0
  {
    FloatRem(time as real, SecondsPerMinute as real).Floor
  }

  /** For a count that is not negative, each digit is the familiar integer
      expression: whole hours modulo a day, whole minutes modulo an hour,
      and the seconds left over. */
  lemma DigitsOfNonNegative(time: int)
    requires time >= 0
    ensures Hours(time) == (time / SecondsPerHour) % HoursPerDay
    ensures Minutes(time) == (time / SecondsPerMinute) % SecondsPerMinute
    ensures Seconds(time) == time % SecondsPerMinute
  {
    var q, r := time / 3600, time % 3600;
    var x := time as real / 3600.0;
    assert x == q as real + r as real / 3600.0;
    var k := q / 24;
    assert Trunc(x / 24.0) == k by {
      assert x / 24.0 == k as real + ((q % 24) as real + r as real / 3600.0) / 24.0;
    }
    assert FloatRem(x, 24.0) == (q % 24) as real + r as real / 3600.0;

    var q', r' := time / 60, time % 60;
    var y := time as real / 60.0;
    assert y == q' as real + r' as real / 60.0;
    var k' := q' / 60;
    assert Trunc(y / 60.0) == k' by {
      assert y / 60.0 == k' as real + ((q' % 60) as real + r' as real / 60.0) / 60.0;
    }
    assert FloatRem(y, 60.0) == (q' % 60) as real + r' as real / 60.0;

    assert Trunc(time as real / 60.0) == q' by {
      assert time as real / 60.0 == q' as real + r' as real / 60.0;
    }
    assert FloatRem(time as real, 60.0) == r' as real;
  }

  /** Below one day the three digits recompose the count exactly. */
  lemma DigitsRecompose(time: int)
    requires 0 <= time < SecondsPerDay
    ensures Hours(time) * SecondsPerHour + Minutes(time) * SecondsPerMinute + Seconds(time) == time
  {
    DigitsOfNonNegative(time);
    DigitExpressionsRecompose(time);
  }

  /** The integer digit expressions recompose a count below one day. */
  lemma DigitExpressionsRecompose(time: int)
    requires 0 <= time < SecondsPerDay
    ensures (time / SecondsPerHour) % HoursPerDay * SecondsPerHour
            + (time / SecondsPerMinute) % SecondsPerMinute * SecondsPerMinute
            + time % SecondsPerMinute == time
  {
    var h, r := time / 3600, time % 3600;
    var m, sec := r / 60, r % 60;
    DivBy(h, 24, 0, h);
    DivBy(time, 60, 60 * h + m, sec);
    DivBy(60 * h + m, 60, h, m);
  }

  /** Whole days contribute nothing to the digits: the integer digit
      expressions of a count and of its remainder modulo a day agree. */
  lemma DigitExpressionsModDay(time: int)
    requires time >= 0
    ensures (time / SecondsPerHour) % HoursPerDay == (time % SecondsPerDay) / SecondsPerHour
    ensures (time / SecondsPerMinute) % SecondsPerMinute
            == ((time % SecondsPerDay) / SecondsPerMinute) % SecondsPerMinute
    ensures time % SecondsPerMinute == (time % SecondsPerDay) % SecondsPerMinute
  {
    var days, rest := time / SecondsPerDay, time % SecondsPerDay;
    var h, r := rest / 3600, rest % 3600;
    DivBy(time, 3600, 24 * days + h, r);
    DivBy(24 * days + h, 24, days, h);
    var m, sec := rest / 60, rest % 60;
    DivBy(time, 60, 1440 * days + m, sec);
    DivBy(1440 * days + m, 60, 24 * days + m / 60, m % 60);
  }

  /** From one day on the hours wrap around: the face shows the count
      modulo a day. */
  lemma DigitsWrapDaily(time: int)
    requires time >= 0
    ensures Hours(time) * SecondsPerHour + Minutes(time) * SecondsPerMinute + Seconds(time)
            == time % SecondsPerDay
  {
    DigitsOfNonNegative(time);
    DigitExpressionsModDay(time);
    DigitsOfNonNegative(time % SecondsPerDay);
    DigitsRecompose(time % SecondsPerDay);
  }

  /** Quotient and remainder are unique: `n == k * q + r` with `0 <= r < k`
      makes `q` and `r` the quotient and remainder of `n` by `k`. */
  lemma DivBy(n: int, k: int, q: int, r: int)
    requires k > 0 && n == k * q + r && 0 <= r < k
    ensures n / k == q && n % k == r
  {
    var q', r' := n / k, n % k;
    assert n == k * q' + r' && 0 <= r' < k;
    assert k * (q - q') == k * q - k * q';
    assert k * (q' - q) == k * q' - k * q;
    if q > q' { MulAtLeast(k, q - q'); }
    if q < q' { MulAtLeast(k, q' - q); }
  }

  lemma MulAtLeast(k: int, a: int)
    requires k > 0 && a >= 1
    ensures k * a >= k
    decreases a
  {
    if a > 1 {
      MulAtLeast(k, a - 1);
      assert k * a == k * (a - 1) + k;
    }
  }
}
