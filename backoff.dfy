/** calculateBackoffDelay: exponential backoff, capped, with symmetric
    multiplicative jitter, rounded to whole milliseconds. */
module Backoff {

  /** The retry settings (RETRY_CONFIG). The delays are JavaScript numbers,
      modelled as exact reals. */
  datatype RetryConfig = RetryConfig(
    maxRetries: nat,
    initialDelayMs: real,
    multiplier: real,
    maxDelayMs: real,
    jitterFactor: real)

  /** The settings the fetcher ships with. */
  const RETRY_CONFIG: RetryConfig := RetryConfig(5, 5000.0, 2.0, 60000.0, 0.2)

  /** Math.pow with a whole, non-negative exponent. */
  function Pow(b: real, e: nat): real {
    if e == 0 then 1.0 else b * Pow(b, e - 1)
  }

  /** Math.round: the nearest integer, halves rounded up (towards +infinity). */
  function Round(x: real): (n: int)
    ensures n as real <= x + 0.5 < n as real + 1.0
  {
    (x + 0.5).Floor
  }

  /** The delay before jitter: initialDelay * multiplier^(attempt - 1). */
  function BaseDelay(cfg: RetryConfig, attempt: nat): real
    requires attempt >= 1
  {
    cfg.initialDelayMs * Pow(cfg.multiplier, attempt - 1)
  }

  /** Math.min(baseDelay, maxDelayMs): never above the cap, never above the
      base delay, and equal to one of them. */
  function CappedDelay(cfg: RetryConfig, attempt: nat): (c: real)
    requires attempt >= 1
    ensures c <= cfg.maxDelayMs && c <= BaseDelay(cfg, attempt)
    ensures c == cfg.maxDelayMs || c == BaseDelay(cfg, attempt)
  {
    var base := BaseDelay(cfg, attempt);
    if base <= cfg.maxDelayMs then base else cfg.maxDelayMs
  }

  /** The jitter term: cappedDelay * jitterFactor * (random * 2 - 1). */
  function Jitter(cfg: RetryConfig, capped: real, random: real): real {
    capped * cfg.jitterFactor * (random * 2.0 - 1.0)
  }

  /** calculateBackoffDelay(attempt), with the value Math.random() returned
      passed in as `random`. */
  function BackoffDelay(cfg: RetryConfig, attempt: nat, random: real): int
    requires attempt >= 1
  {
    var capped := CappedDelay(cfg, attempt);
    Round(capped + Jitter(cfg, capped, random))
  }

  // ---------------------------------------------------------------------
  // Properties
  // ---------------------------------------------------------------------

  /** Math.round is monotone. */
  lemma RoundMonotone(x: real, y: real)
    requires x <= y
    ensures Round(x) <= Round(y)
  {
  }

  /** A value between two others rounds between their roundings. */
  lemma RoundBetween(lo: real, x: real, hi: real)
    requires lo <= x <= hi
    ensures Round(lo) <= Round(x) <= Round(hi)
  {
    RoundMonotone(lo, x);
    RoundMonotone(x, hi);
  }

  /** Math.round is the identity on whole numbers. */
  lemma RoundWhole(n: int)
    ensures Round(n as real) == n
  {
  }

  /** With a multiplier of at least 1 the powers are at least 1 and grow. */
  lemma {:induction false} PowGrows(b: real, e: nat)
    requires b >= 1.0
    ensures 1.0 <= Pow(b, e) <= Pow(b, e + 1)
  {
    if e > 0 {
      PowGrows(b, e - 1);
    }
  }

  /** The capped delay never decreases from one attempt to the next. */
  lemma {:induction false} CappedDelayMonotone(cfg: RetryConfig, a: nat, b: nat)
    requires 1 <= a <= b
    requires cfg.multiplier >= 1.0 && cfg.initialDelayMs >= 0.0
    ensures CappedDelay(cfg, a) <= CappedDelay(cfg, b)
    decreases b - a
  {
    if a < b {
      CappedDelayMonotone(cfg, a + 1, b);
      BaseDelayStep(cfg, a);
    }
  }

  /** The base delay never decreases from one attempt to the next. */
  lemma BaseDelayStep(cfg: RetryConfig, a: nat)
    requires a >= 1 && cfg.multiplier >= 1.0 && cfg.initialDelayMs >= 0.0
    ensures BaseDelay(cfg, a) <= BaseDelay(cfg, a + 1)
  {
    var p := Pow(cfg.multiplier, a - 1);
    var q := Pow(cfg.multiplier, a);
    PowGrows(cfg.multiplier, a - 1);
    ScaleMonotone(cfg.initialDelayMs, p, q);
    assert BaseDelay(cfg, a) == cfg.initialDelayMs * p;
    assert BaseDelay(cfg, a + 1) == cfg.initialDelayMs * q;
  }

  /** Scaling by a non-negative factor keeps the order. */
  lemma ScaleMonotone(x: real, y: real, z: real)
    requires x >= 0.0 && y <= z
    ensures x * y <= x * z
  {
    ProductNonNegative(x, z - y);
    assert x * (z - y) == x * z - x * y;
  }

  /** With the shipped settings the capped delays are 5, 10, 20 and 40
      seconds for the first four attempts and 60 seconds from then on. */
  lemma CappedDelaySchedule(attempt: nat)
    requires attempt >= 1
    ensures attempt == 1 ==> CappedDelay(RETRY_CONFIG, attempt) == 5000.0
    ensures attempt == 2 ==> CappedDelay(RETRY_CONFIG, attempt) == 10000.0
    ensures attempt == 3 ==> CappedDelay(RETRY_CONFIG, attempt) == 20000.0
    ensures attempt == 4 ==> CappedDelay(RETRY_CONFIG, attempt) == 40000.0
    ensures attempt >= 5 ==> CappedDelay(RETRY_CONFIG, attempt) == 60000.0
  {
    assert Pow(2.0, 4) == 16.0;
    if attempt >= 5 {
      PowTower(attempt - 1);
    }
  }

  /** 2^e is at least 16 from e = 4 on. */
  lemma {:induction false} PowTower(e: nat)
    requires e >= 4
    ensures Pow(2.0, e) >= 16.0
  {
    if e > 4 {
      PowTower(e - 1);
    }
  }

  /** A product of non-negative reals is non-negative. */
  lemma ProductNonNegative(x: real, y: real)
    requires x >= 0.0 && y >= 0.0
    ensures x * y >= 0.0
  {
  }

  /** The rounded, jittered value of a non-negative delay c lies between c
      shrunk and grown by the factor j, each rounded. */
  lemma RoundedJitterWithin(cfg: RetryConfig, c: real, random: real)
    requires c >= 0.0 && cfg.jitterFactor >= 0.0 && 0.0 <= random < 1.0
    ensures Round(c * (1.0 - cfg.jitterFactor)) <= Round(c + Jitter(cfg, c, random))
            <= Round(c * (1.0 + cfg.jitterFactor))
  {
    JitterBounds(cfg, c, random);
    RoundBetween(c * (1.0 - cfg.jitterFactor), c + Jitter(cfg, c, random), c * (1.0 + cfg.jitterFactor));
  }

  /** The jittered value of c, before rounding, lies within c * jitterFactor
      of c. */
  lemma JitterBounds(cfg: RetryConfig, c: real, random: real)
    requires c >= 0.0 && cfg.jitterFactor >= 0.0 && 0.0 <= random < 1.0
    ensures c * (1.0 - cfg.jitterFactor) <= c + Jitter(cfg, c, random)
    ensures c + Jitter(cfg, c, random) <= c * (1.0 + cfg.jitterFactor)
  {
    var t := random * 2.0 - 1.0;
    var m := c * cfg.jitterFactor;
    ProductNonNegative(c, cfg.jitterFactor);
    ProductNonNegative(m, 1.0 - t);
    ProductNonNegative(m, t + 1.0);
    assert m * (1.0 - t) == m - m * t;
    assert m * (t + 1.0) == m * t + m;
    assert Jitter(cfg, c, random) == m * t;
    assert c * (1.0 - cfg.jitterFactor) == c - m && c * (1.0 + cfg.jitterFactor) == c + m;
  }

  /** The jittered delay lies between the rounded capped delay shrunk and
      grown by the jitter factor. */
  lemma BackoffDelayBounds(cfg: RetryConfig, attempt: nat, random: real)
    requires attempt >= 1 && 0.0 <= random < 1.0
    requires cfg.jitterFactor >= 0.0 && CappedDelay(cfg, attempt) >= 0.0
    ensures Round(CappedDelay(cfg, attempt) * (1.0 - cfg.jitterFactor)) <= BackoffDelay(cfg, attempt, random)
    ensures BackoffDelay(cfg, attempt, random) <= Round(CappedDelay(cfg, attempt) * (1.0 + cfg.jitterFactor))
  {
    RoundedJitterWithin(cfg, CappedDelay(cfg, attempt), random);
  }

  /** When the draw lands in the middle, or the jitter factor is zero, the
      delay is the capped delay rounded; a whole capped delay is kept. */
  lemma BackoffDelayWithoutJitter(cfg: RetryConfig, attempt: nat, random: real)
    requires attempt >= 1 && (random == 0.5 || cfg.jitterFactor == 0.0)
    ensures BackoffDelay(cfg, attempt, random) == Round(CappedDelay(cfg, attempt))
    ensures CappedDelay(cfg, attempt) == CappedDelay(cfg, attempt).Floor as real
            ==> BackoffDelay(cfg, attempt, random) == CappedDelay(cfg, attempt).Floor
  {
    var c := CappedDelay(cfg, attempt);
    assert Jitter(cfg, c, random) == 0.0;
    RoundWhole(c.Floor);
  }

  /** With the shipped settings every delay lies between 4 and 72 seconds, and
      the first one between 4 and 6 seconds. */
  lemma ShippedDelayRange(attempt: nat, random: real)
    requires attempt >= 1 && 0.0 <= random < 1.0
    ensures 4000 <= BackoffDelay(RETRY_CONFIG, attempt, random) <= 72000
    ensures attempt == 1 ==> 4000 <= BackoffDelay(RETRY_CONFIG, attempt, random) <= 6000
  {
    CappedDelaySchedule(attempt);
    CappedDelayMonotone(RETRY_CONFIG, 1, attempt);
    BackoffDelayBounds(RETRY_CONFIG, attempt, random);
    var c := CappedDelay(RETRY_CONFIG, attempt);
    assert 5000.0 <= c <= 60000.0;
    RoundMonotone(4000.0, c * 0.8);
    RoundMonotone(c * 1.2, 72000.0);
    RoundWhole(4000);
    RoundWhole(72000);
    if attempt == 1 {
      RoundWhole(6000);
    }
  }

  /** A jitter factor of at most 1 keeps every delay non-negative, although
      the code does not clamp it. */
  lemma DelayNonNegative(cfg: RetryConfig, attempt: nat, random: real)
    requires attempt >= 1 && 0.0 <= random < 1.0
    requires 0.0 <= cfg.jitterFactor <= 1.0 && CappedDelay(cfg, attempt) >= 0.0
    ensures BackoffDelay(cfg, attempt, random) >= 0
  {
    var c := CappedDelay(cfg, attempt);
    BackoffDelayBounds(cfg, attempt, random);
    ProductNonNegative(c, 1.0 - cfg.jitterFactor);
    RoundMonotone(0.0, c * (1.0 - cfg.jitterFactor));
    RoundWhole(0);
  }

  /** There is no clamp at zero: a jitter factor above 1 can make the delay
      negative. */
  lemma NegativeDelayWithoutClamp()
    ensures BackoffDelay(RETRY_CONFIG.(jitterFactor := 2.0), 1, 0.0) == -5000
  {
    var cfg := RETRY_CONFIG.(jitterFactor := 2.0);
    assert CappedDelay(cfg, 1) == 5000.0;
    RoundWhole(-5000);
  }
}
