/**
 Configuration of the two refresh durations and the bounded retry delay, over 64-bit signed
 nanoseconds: that no intermediate value overflows is part of what is verified.
 */
module Backoff {
  import opened Powers

  newtype Int64 = x: int | -0x8000_0000_0000_0000 <= x < 0x8000_0000_0000_0000

  const MAX_DURATION: Int64 := 0x7FFF_FFFF_FFFF_FFFF
  const BACKOFF_MULTIPLIER: Int64 := 16

  function Min(a: int, b: int): int {
    if a < b then a else b
  }

  datatype Config = Config(refreshInterval: Int64, refreshBackoffMax: Int64)

  datatype Validated = Valid(config: Config) | Invalid

  predicate ConfigOk(c: Config) {
    0 < c.refreshInterval <= c.refreshBackoffMax
  }

  /** Saturates instead of overflowing. */
  method MultipliedDuration(d: Int64, multiplier: Int64) returns (product: Int64)
    requires d > 0 && multiplier > 0
    ensures product as int == Min(MAX_DURATION as int, d as int * multiplier as int)
  {
    if d > MAX_DURATION / multiplier {
      DivisionBound(MAX_DURATION as int, multiplier as int, d as int);
      return MAX_DURATION;
    }
    DivisionBound(MAX_DURATION as int, multiplier as int, d as int);
    product := d * multiplier;
  }

  lemma DivisionBound(max: int, m: int, d: int)
    requires max > 0 && m > 0 && d > 0
    ensures d > max / m ==> d * m > max
    ensures d <= max / m ==> 0 < d * m <= max
  {
    var q := max / m;
    assert max == q * m + max % m;
    if d > q {
      assert d * m >= (q + 1) * m;
    } else {
      assert d * m <= q * m;
    }
  }

  /** A zero maximum means sixteen intervals; a maximum below the interval is refused. */
  method NewConfig(refreshInterval: Int64, refreshBackoffMax: Int64) returns (v: Validated)
    ensures v.Invalid? <==> refreshInterval <= 0 || (refreshBackoffMax != 0 && refreshBackoffMax < refreshInterval)
    ensures v.Valid? ==> ConfigOk(v.config) && v.config.refreshInterval == refreshInterval
    ensures v.Valid? && refreshBackoffMax != 0 ==> v.config.refreshBackoffMax == refreshBackoffMax
    ensures v.Valid? && refreshBackoffMax == 0 ==>
      v.config.refreshBackoffMax as int == Min(MAX_DURATION as int, 16 * refreshInterval as int)
  {
    if refreshInterval <= 0 {
      return Invalid;
    }
    var max := refreshBackoffMax;
    if max == 0 {
      max := MultipliedDuration(refreshInterval, BACKOFF_MULTIPLIER);
    }
    if max < refreshInterval {
      return Invalid;
    }
    v := Valid(Config(refreshInterval, max));
  }

  /** The delay before jitter: the interval doubled once per further failure, up to the maximum. */
  function Exponential(c: Config, failures: int): int {
    Min(c.refreshBackoffMax as int, c.refreshInterval as int * Pow2(Exponent(failures)))
  }

  function Exponent(failures: int): nat {
    if failures > 1 then failures - 1 else 0
  }

  function Clamp(x: int, bound: int): int {
    if x > bound then bound else if x < -bound then -bound else x
  }

  /** `delay` is the base moved by the offset, or by a fifth if the offset asks for more, up to the maximum. */
  predicate MovedBy(c: Config, base: int, offset: int, delay: int) {
    var spread, max := base / 5, c.refreshBackoffMax as int;
    && (-spread <= offset <= spread ==> delay == if base + offset <= max then base + offset else max)
    && (offset > spread ==> delay == if base + spread <= max then base + spread else max)
    && (offset < -spread ==> delay == base - spread)
  }

  lemma Doubles(interval: int, n: nat)
    ensures interval * Pow2(n + 1) == 2 * (interval * Pow2(n))
  {
  }

  lemma Scales(interval: int, a: int, b: int)
    requires 0 < interval && a <= b
    ensures interval * a <= interval * b
  {
  }

  lemma ScaledPowGrows(interval: int, i: nat, j: nat)
    requires 0 < interval && i <= j
    ensures interval * Pow2(i) <= interval * Pow2(j)
  {
    PowGrows(i, j);
    Scales(interval, Pow2(i), Pow2(j));
  }

  /**
   `jitter` is the function that supplies the offset for a spread; its result is not trusted. Whatever
   it returns, the delay is positive, at most the maximum and within 20% of the base.
   */
  method BackoffDelay(c: Config, failures: Int64, jitter: Int64 -> Int64) returns (delay: Int64)
    requires ConfigOk(c)
    ensures var base := Exponential(c, failures as int);
      && 0 < base <= c.refreshBackoffMax as int
      && var spread := base / 5;
         delay as int == Min(c.refreshBackoffMax as int, base + Clamp(jitter(spread as Int64) as int, spread))
    ensures var base := Exponential(c, failures as int);
      0 < delay <= c.refreshBackoffMax && 4 * base <= 5 * delay as int <= 6 * base
    ensures var base := Exponential(c, failures as int);
      base / 5 <= MAX_DURATION as int && MovedBy(c, base, jitter((base / 5) as Int64) as int, delay as int)
  {
    delay := DoubledDelay(c, failures);
    var spread := delay / 5;
    var offset := jitter(spread);
    if offset > spread {
      offset := spread;
    } else if offset < -spread {
      offset := -spread;
    }
    if offset > 0 && delay > c.refreshBackoffMax - offset {
      return c.refreshBackoffMax;
    }
    if delay + offset > c.refreshBackoffMax {
      return c.refreshBackoffMax;
    }
    delay := delay + offset;
  }

  method DoubledDelay(c: Config, failures: Int64) returns (delay: Int64)
    requires ConfigOk(c)
    ensures delay as int == Exponential(c, failures as int) && 0 < delay <= c.refreshBackoffMax
  {
    ghost var interval, max := c.refreshInterval as int, c.refreshBackoffMax as int;
    delay := c.refreshInterval;
    var attempt: Int64 := 1;
    while attempt < failures && delay < c.refreshBackoffMax
      invariant 1 <= attempt && (attempt <= failures || attempt == 1)
      invariant 0 < delay <= c.refreshBackoffMax
      invariant delay as int == Min(max, interval * Pow2(attempt as int - 1))
      decreases failures as int - attempt as int
    {
      Doubles(interval, attempt as int - 1);
      if delay > c.refreshBackoffMax / 2 {
        delay := c.refreshBackoffMax;
      } else {
        delay := delay * 2;
      }
      attempt := attempt + 1;
    }
    if attempt < failures {
      ScaledPowGrows(interval, attempt as int - 1, failures as int - 1);
    }
    if delay > c.refreshBackoffMax {
      delay := c.refreshBackoffMax;
    }
  }

  /** The first failure waits one interval, and each further one twice as long, up to the maximum. */
  lemma ExponentialSchedule(c: Config, failures: int)
    requires ConfigOk(c)
    ensures failures <= 1 ==> Exponential(c, failures) == c.refreshInterval as int
    ensures failures >= 1 ==> var next := 2 * Exponential(c, failures);
      Exponential(c, failures + 1) == if next <= c.refreshBackoffMax as int then next else c.refreshBackoffMax as int
  {
    if failures >= 1 {
      Doubles(c.refreshInterval as int, failures - 1);
    }
  }

  /** More failures never shorten the delay before jitter. */
  lemma ExponentialGrows(c: Config, failures: int, more: nat)
    requires ConfigOk(c)
    ensures Exponential(c, failures) <= Exponential(c, failures + more)
  {
    ScaledPowGrows(c.refreshInterval as int, Exponent(failures), Exponent(failures + more));
  }
}
