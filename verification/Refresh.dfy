/**
  The test whether a client is old enough to be refreshed: the time between two block timestamps
  against a fraction of the trusting period, in 64-bit nanoseconds.
  */
module Refresh {
  import opened Integers

  const SECOND: int := 1_000_000_000

  /** Seconds from the origin of the program's time values to the Unix epoch. */
  const UNIX_TO_INTERNAL: int := 62_135_596_800

  const MAX_INT64: int64 := INT64_LIMIT - 1

  /** The 64-bit two's complement value of an integer. */
  function Wrap64(x: int): int64 {
    var low := x % UINT64_LIMIT;
    if low < INT64_LIMIT then low else low - UINT64_LIMIT
  }

  /** Division of the program, which rounds towards zero. */
  function TruncDiv(x: int, d: int): int
    requires d != 0
  {
    if x >= 0 && d > 0 then x / d
    else if x >= 0 then -(x / -d)
    else if d > 0 then -(-x / d)
    else -x / -d
  }

  // ---- Elapsed time ----

  function InternalSecond(timestamp: uint64): int64 {
    Wrap64(Wrap64(timestamp) + UNIX_TO_INTERNAL)
  }

  /** The internal second of a timestamp is the 64-bit number congruent to the shifted timestamp. */
  lemma InternalSecondIff(timestamp: uint64, s: int)
    ensures InternalSecond(timestamp) == s <==>
            && -0x8000_0000_0000_0000 <= s < 0x8000_0000_0000_0000
            && (timestamp + 62_135_596_800 - s) % 0x1_0000_0000_0000_0000 == 0
  {
    Wrap64Iff(timestamp, Wrap64(timestamp));
    Wrap64Iff(Wrap64(timestamp) + UNIX_TO_INTERNAL, s);
    hide Wrap64;
    var k := (timestamp - Wrap64(timestamp)) / UINT64_LIMIT;
    var x := Wrap64(timestamp) + UNIX_TO_INTERNAL - s;
    assert timestamp + UNIX_TO_INTERNAL - s == k * UINT64_LIMIT + x;
    assert x == x / UINT64_LIMIT * UINT64_LIMIT + x % UINT64_LIMIT;
    QuotientUnique(timestamp + UNIX_TO_INTERNAL - s, k + x / UINT64_LIMIT, x % UINT64_LIMIT, UINT64_LIMIT);
  }

  lemma Wrap64Iff(x: int, y: int)
    ensures Wrap64(x) == y <==>
            -0x8000_0000_0000_0000 <= y < 0x8000_0000_0000_0000 && (x - y) % 0x1_0000_0000_0000_0000 == 0
  {
    var q, low := x / UINT64_LIMIT, x % UINT64_LIMIT;
    assert x == q * UINT64_LIMIT + low;
    var k := (x - y) / UINT64_LIMIT;
    assert x - y == k * UINT64_LIMIT + (x - y) % UINT64_LIMIT;
  }

  /**
    The difference of two time values made from block timestamps: whole seconds, or the end of the
    range that lies in the direction of the difference if they do not fit.
    */
  function Elapsed(latest: uint64, last: uint64): int64 {
    var seconds: int := InternalSecond(latest) - InternalSecond(last);
    var d := seconds * SECOND;
    if d < -INT64_LIMIT then -INT64_LIMIT else if d < INT64_LIMIT then d else MAX_INT64
  }

  /** The seconds between two timestamps, in nanoseconds, or the end of the 64-bit range. */
  lemma ElapsedNanoseconds(latest: uint64, last: uint64)
    requires latest < 0x1000_0000_0000_0000 && last < 0x1000_0000_0000_0000
    ensures var d := (latest - last) * 1_000_000_000;
            Elapsed(latest, last) == if d < -0x8000_0000_0000_0000 then -0x8000_0000_0000_0000
                                     else if d > 0x7fff_ffff_ffff_ffff then 0x7fff_ffff_ffff_ffff else d
  {
    InternalSmall(latest);
    InternalSmall(last);
    hide InternalSecond;
  }

  predicate Measured(elapsed: int64) {
    elapsed % SECOND == 0 || elapsed == -INT64_LIMIT || elapsed == MAX_INT64
  }

  lemma Timestamps(elapsed: int64) returns (latest: uint64, last: uint64)
    requires Measured(elapsed)
    ensures Elapsed(latest, last) == elapsed
  {
    if elapsed == MAX_INT64 {
      latest, last := 10_000_000_000, 0;
    } else if elapsed == -INT64_LIMIT {
      latest, last := 0, 10_000_000_000;
    } else {
      var s := elapsed / SECOND;
      latest, last := if s >= 0 then s else 0, if s >= 0 then 0 else -s;
    }
    InternalSmall(latest);
    InternalSmall(last);
    hide InternalSecond;
  }

  lemma InternalSmall(timestamp: uint64)
    requires timestamp < 0x1000_0000_0000_0000
    ensures InternalSecond(timestamp) == timestamp + UNIX_TO_INTERNAL
  {
  }

  /** Exactly the whole seconds and the ends of the range are differences of two timestamps. */
  lemma MeasuredIff(elapsed: int64)
    ensures Measured(elapsed) <==> exists latest: uint64, last: uint64 :: Elapsed(latest, last) == elapsed
  {
    hide Wrap64, InternalSecond;
    if Measured(elapsed) {
      var latest, last := Timestamps(elapsed);
    }
  }

  lemma ElapsedMeasured(latest: uint64, last: uint64)
    ensures Measured(Elapsed(latest, last))
  {
    hide Wrap64, InternalSecond;
  }

  /** The least difference of timestamps above a number of nanoseconds; past all of them if there is none. */
  function NextMeasured(t: int64): (next: int)
    ensures t < next <= INT64_LIMIT
    ensures next < INT64_LIMIT ==> Measured(next)
    ensures forall e: int64 :: Measured(e) ==> (t < e <==> next <= e)
  {
    var next := (t / SECOND + 1) * SECOND;
    if next < INT64_LIMIT then next else if t < MAX_INT64 then MAX_INT64 else INT64_LIMIT
  }

  // ---- The test ----

  /** The configured trusting period and refresh threshold rate. */
  datatype Config = Config(period: int64, numerator: uint64, denominator: uint64) {
    /** What the configuration check lets through. */
    predicate Valid() {
      0 < period && 0 < numerator <= denominator
    }

    function Threshold(): int64
      requires denominator != 0
    {
      assert Wrap64(denominator) != 0;
      Wrap64(TruncDiv(Wrap64(period * Wrap64(numerator)), Wrap64(denominator)))
    }

    function NeedsRefresh(elapsed: int64): bool
      requires denominator != 0
    {
      elapsed > Threshold()
    }

    /** The product before it is cut to 64 bits. */
    function Product(): int {
      period * numerator
    }

    /** The product and the denominator as 64-bit integers, both negated if the latter is negative. */
    function Dividend(): int {
      var w: int := Wrap64(Product());
      if denominator < INT64_LIMIT then w else -w
    }

    function Positive(): nat {
      if Dividend() > 0 then Dividend() else 0
    }

    function Divisor(): nat {
      if denominator < INT64_LIMIT then denominator else UINT64_LIMIT - denominator
    }

    /** The one quotient of 64-bit integers that does not fit, -2^63 by -1. */
    predicate QuotientWraps() {
      Dividend() == INT64_LIMIT && Divisor() == 1
    }

    /** The test agrees with the exact fraction of the period, whatever the two timestamps are. */
    ghost predicate Exact()
      requires denominator != 0
    {
      forall latest: uint64, last: uint64 ::
        NeedsRefresh(Elapsed(latest, last)) <==> Elapsed(latest, last) * denominator > Product()
    }

    /** A client that passes as fresh is within its trusting period, whatever the two timestamps are. */
    ghost predicate Safe()
      requires denominator != 0
    {
      forall latest: uint64, last: uint64 ::
        !NeedsRefresh(Elapsed(latest, last)) ==> Elapsed(latest, last) <= period
    }
  }

  // ---- 64-bit arithmetic ----

  lemma WrapSmall(x: int)
    requires -INT64_LIMIT <= x < INT64_LIMIT
    ensures Wrap64(x) == x
  {
  }

  lemma WrapTurns(x: int, y: int, k: int)
    requires x == y + k * UINT64_LIMIT
    ensures Wrap64(x) == Wrap64(y)
  {
    var low := y % UINT64_LIMIT;
    QuotientUnique(x, y / UINT64_LIMIT + k, low, UINT64_LIMIT);
  }

  lemma WrapDistance(x: int) returns (k: int)
    ensures x == Wrap64(x) + k * UINT64_LIMIT
  {
    k := x / UINT64_LIMIT + if x % UINT64_LIMIT < INT64_LIMIT then 0 else 1;
  }

  /** A product that does not fit is off by at least one turn of the 64-bit circle. */
  lemma WrapLarge(x: nat)
    requires INT64_LIMIT <= x
    ensures Wrap64(x) + UINT64_LIMIT <= x
  {
  }

  lemma QuotientBound(x: nat, d: nat)
    requires 0 < d
    ensures 0 <= x / d <= x && x < (x / d + 1) * d && x / d * d <= x
  {
    MulMonotone(1, d, x / d);
  }

  lemma QuotientBelow(x: nat, d: nat, bound: int)
    requires 0 < d
    ensures x / d < bound <==> x < bound * d
  {
    QuotientBound(x, d);
    MulMonotone(x / d + 1, bound, d);
    MulMonotone(bound, x / d, d);
  }

  lemma TruncDivRange(n: int, m: nat)
    requires -INT64_LIMIT <= n <= INT64_LIMIT && 0 < m && !(n == INT64_LIMIT && m == 1)
    ensures -INT64_LIMIT <= TruncDiv(n, m) < INT64_LIMIT
    ensures n < 0 ==> TruncDiv(n, m) <= 0
  {
    var size := if n >= 0 then n else -n;
    QuotientBound(size, m);
    if m > 1 {
      MulMonotone(2, m, size / m);
    }
  }

  lemma DenominatorWraps(c: Config)
    requires c.Valid()
    ensures 0 < c.Divisor() <= INT64_LIMIT
    ensures Wrap64(c.denominator) == if c.denominator < INT64_LIMIT then c.Divisor() else 0 - c.Divisor()
  {
  }

  lemma TruncDivNegate(x: int, d: int)
    requires d != 0
    ensures TruncDiv(x, -d) == TruncDiv(-x, d)
  {
  }

  /** The threshold is the quotient of two 64-bit integers, of which the divisor can be taken as positive. */
  lemma ThresholdValue(c: Config)
    requires c.Valid()
    ensures -INT64_LIMIT <= c.Dividend() <= INT64_LIMIT && 0 < c.Divisor() <= INT64_LIMIT
    ensures c.Threshold() == if c.QuotientWraps() then -INT64_LIMIT else TruncDiv(c.Dividend(), c.Divisor())
  {
    hide Wrap64, TruncDiv, Config.Product, Config.Divisor;
    ProductWraps(c);
    DenominatorWraps(c);
    TruncDivNegate(Wrap64(c.Product()), c.Divisor());
    assert c.Threshold() == Wrap64(TruncDiv(c.Dividend(), c.Divisor()));
    WrapQuotient(c.Dividend(), c.Divisor());
  }

  lemma WrapQuotient(n: int, m: int)
    requires -INT64_LIMIT <= n <= INT64_LIMIT && 0 < m
    ensures Wrap64(TruncDiv(n, m)) == if n == INT64_LIMIT && m == 1 then -INT64_LIMIT else TruncDiv(n, m)
  {
    if n == INT64_LIMIT && m == 1 {
      assert TruncDiv(n, m) == INT64_LIMIT;
    } else {
      TruncDivRange(n, m);
      WrapSmall(TruncDiv(n, m));
    }
  }

  lemma ProductWraps(c: Config)
    requires c.Valid()
    ensures Wrap64(c.period * Wrap64(c.numerator)) == Wrap64(c.Product())
  {
    var k := WrapDistance(c.numerator);
    assert c.Product() == c.period * Wrap64(c.numerator) + (c.period * k) * UINT64_LIMIT;
    WrapTurns(c.Product(), c.period * Wrap64(c.numerator), c.period * k);
  }

  lemma TruncDivBelow(n: int, m: nat, bound: int)
    requires 0 < m && 0 < bound
    ensures TruncDiv(n, m) < bound <==> n < bound * m
  {
    if n < 0 {
      QuotientBound(-n, m);
      MulMonotone(0, bound, m);
    } else {
      QuotientBelow(n, m, bound);
    }
  }

  /** When the threshold stays below a bound. */
  lemma ThresholdBelowIff(c: Config, bound: int)
    requires c.Valid() && 0 < bound <= INT64_LIMIT
    ensures c.Threshold() < bound <==> c.Dividend() < bound * c.Divisor() || c.QuotientWraps()
  {
    hide Wrap64, TruncDiv, Config.Threshold, Config.Dividend, Config.Divisor;
    ThresholdValue(c);
    TruncDivBelow(c.Dividend(), c.Divisor(), bound);
    if c.QuotientWraps() {
      assert c.Threshold() < bound;
    }
  }

  // ---- The threshold against the exact fraction ----

  /** The exact fraction of the period, rounded down to nanoseconds. */
  function Fraction(c: Config): (q: int64)
    requires c.Valid()
    ensures 0 <= q <= c.period
    ensures q * c.denominator <= c.Product() < (q + 1) * c.denominator
    ensures forall e: int64 :: e * c.denominator > c.Product() <==> e > q
  {
    FractionBounds(c);
    c.Product() / c.denominator
  }

  lemma ProductBounds(c: Config)
    requires c.Valid()
    ensures 0 <= c.Product() < (c.period + 1) * c.denominator
  {
    MulMonotone(1, c.period, c.numerator);
    MulMonotone(c.numerator, c.denominator, c.period);
  }

  lemma FractionBounds(c: Config)
    requires c.Valid()
    ensures var q := c.Product() / c.denominator;
            && 0 <= q <= c.period
            && q * c.denominator <= c.Product() < (q + 1) * c.denominator
            && forall e: int64 :: e * c.denominator > c.Product() <==> e > q
  {
    var x := c.Product();
    ProductBounds(c);
    hide Config.Product;
    QuotientBound(x, c.denominator);
    QuotientBelow(x, c.denominator, c.period + 1);
    forall e: int64
      ensures e * c.denominator > x <==> e > x / c.denominator
    {
      QuotientBelow(x, c.denominator, e);
    }
  }

  /** As long as the product fits, rounding down does not change the test. */
  lemma ThresholdExact(elapsed: int64, c: Config)
    requires c.Valid() && c.denominator < INT64_LIMIT && c.Product() < INT64_LIMIT
    ensures c.Threshold() == Fraction(c)
    ensures c.NeedsRefresh(elapsed) <==> elapsed * c.denominator > c.Product()
  {
    MulMonotone(1, c.period, c.numerator);
    WrapSmall(c.Product());
    ThresholdValue(c);
  }

  lemma NeedsRefreshMonotone(elapsed: int64, later: int64, c: Config)
    requires c.denominator != 0 && elapsed <= later && c.NeedsRefresh(elapsed)
    ensures c.NeedsRefresh(later)
  {
  }

  lemma TruncDivTimes(n: int, m: nat)
    requires 0 < m && 0 <= TruncDiv(n, m)
    ensures TruncDiv(n, m) * m < n + m
  {
    QuotientBound(if n < 0 then -n else n, m);
  }

  lemma TimesApart(t: int, q: int, d: nat, x: int, gap: nat)
    requires t * d + UINT64_LIMIT < x + d && x < (q + 1) * d && d * (gap + 1) <= UINT64_LIMIT
    ensures t + gap <= q
  {
    assert (t + gap) * d == t * d + d * gap;
    assert d * (gap + 1) == d * gap + d;
    assert (t + gap) * d < x < (q + 1) * d;
    MulMonotone(q + 1, t + gap, d);
  }

  lemma ThresholdTooLow(c: Config)
    requires c.Valid() && c.denominator < INT64_LIMIT && INT64_LIMIT <= c.Product()
    ensures c.Threshold() < 0 || c.Threshold() * c.denominator + UINT64_LIMIT < c.Product() + c.denominator
    ensures c.Threshold() < Fraction(c)
  {
    var t, x := c.Threshold(), c.Product();
    assert c.Dividend() == Wrap64(x) && c.Divisor() == c.denominator;
    hide Wrap64, TruncDiv, Config.Threshold, Config.Product, Config.Dividend, Config.Divisor;
    ThresholdValue(c);
    WrapLarge(x);
    if t >= 0 {
      TruncDivTimes(Wrap64(x), c.denominator);
      TimesApart(t, Fraction(c), c.denominator, x, 1);
    }
  }

  /** For a denominator of 63 bits, the threshold is the floored fraction exactly when the product fits. */
  lemma NarrowThresholdIff(c: Config)
    requires c.Valid() && c.denominator < INT64_LIMIT
    ensures c.Threshold() == Fraction(c) <==> c.Product() < INT64_LIMIT
  {
    if c.Product() < INT64_LIMIT {
      ThresholdExact(0, c);
    } else {
      ThresholdTooLow(c);
    }
  }

  /** What a wide denominator leaves of the product, modulo 2^64. */
  lemma WideProduct(c: Config) returns (k: int)
    requires c.Valid() && INT64_LIMIT <= c.denominator
    ensures c.Product() == k * UINT64_LIMIT - c.Dividend()
    ensures var r := c.Product() - Fraction(c) * c.denominator;
            && 0 <= r < c.denominator
            && r == (k - Fraction(c)) * UINT64_LIMIT + Fraction(c) * c.Divisor() - c.Dividend()
  {
    k := WrapDistance(c.Product());
    assert c.Dividend() == 0 - Wrap64(c.Product()) && c.denominator == UINT64_LIMIT - c.Divisor();
    var q := Fraction(c);
    hide Wrap64, Config.Product, Config.Dividend, Config.Divisor, Fraction;
    assert q * c.denominator == q * UINT64_LIMIT - q * c.Divisor();
  }

  /**
    A denominator of 64 bits turns negative. The threshold is still the floored fraction when both
    are 0, or when there is no remainder and the quotient does not overflow.
    */
  predicate WideExact(c: Config)
    requires c.Valid()
  {
    || c.Product() < c.Divisor()
    || (c.Product() % c.denominator == 0 && c.Product() / c.denominator * c.Divisor() <= INT64_LIMIT)
  }

  lemma WideSmallThreshold(c: Config)
    requires c.Valid() && INT64_LIMIT <= c.denominator && c.Product() < c.Divisor()
    ensures c.Threshold() == Fraction(c)
  {
    var x, m := c.Product(), c.Divisor();
    assert 0 <= x by {
      MulMonotone(1, c.period, c.numerator);
    }
    WrapSmall(x);
    QuotientUnique(x, 0, x, m);
    QuotientUnique(x, 0, x, c.denominator);
    assert c.Dividend() == -x && TruncDiv(-x, m) == 0;
    hide Wrap64, TruncDiv, Config.Threshold, Config.Dividend, Config.Divisor;
    ThresholdValue(c);
  }

  lemma WideMultipleThreshold(c: Config)
    requires c.Valid() && INT64_LIMIT <= c.denominator
    requires c.Product() == Fraction(c) * c.denominator && Fraction(c) * c.Divisor() <= INT64_LIMIT
    ensures c.Threshold() == Fraction(c)
  {
    var m: int, q: int := c.Divisor(), Fraction(c);
    assert 0 < m && c.Product() == -(q * m) + q * UINT64_LIMIT;
    MulMonotone(0, q, m);
    WrapTurns(c.Product(), -(q * m), q);
    WrapSmall(-(q * m));
    QuotientUnique(q * m, q, 0, m);
    assert c.Dividend() == q * m && TruncDiv(q * m, m) == q;
    hide Wrap64, TruncDiv, Config.Threshold, Config.Dividend, Config.Divisor;
    ThresholdValue(c);
  }

  lemma WideExactThreshold(c: Config)
    requires c.Valid() && INT64_LIMIT <= c.denominator && WideExact(c)
    ensures c.Threshold() == Fraction(c)
  {
    hide Config.Threshold, Config.Divisor;
    if c.Product() < c.Divisor() {
      WideSmallThreshold(c);
    } else {
      WideMultipleThreshold(c);
    }
  }

  lemma ExactThresholdWide(c: Config)
    requires c.Valid() && INT64_LIMIT <= c.denominator && c.Threshold() == Fraction(c)
    ensures WideExact(c)
  {
    var n, m, q := c.Dividend(), c.Divisor(), Fraction(c);
    var k := WideProduct(c);
    ThresholdValue(c);
    if q == 0 {
      TruncDivZero(n, m);
      assert k == 0;
    } else {
      TruncDivRemainder(n, m);
      var r := c.Product() - q * c.denominator;
      assert r + (n - q * m) == (k - q) * UINT64_LIMIT;
      assert k == q && r == 0 && n == q * m;
      QuotientUnique(c.Product(), q, 0, c.denominator);
    }
  }

  lemma TruncDivZero(n: int, m: int)
    requires 0 < m
    ensures TruncDiv(n, m) == 0 <==> -m < n < m
    ensures TruncDiv(n, m) < 0 <==> n <= -m
  {
    QuotientBelow(if n < 0 then -n else n, m, 1);
    QuotientBound(if n < 0 then -n else n, m);
  }

  lemma TruncDivRemainder(n: int, m: nat)
    requires 0 < m && 0 < TruncDiv(n, m)
    ensures 0 <= n - TruncDiv(n, m) * m < m
  {
    QuotientBound(if n < 0 then -n else n, m);
  }

  /** The threshold is the floored fraction exactly under a condition on the product, for every valid rate. */
  lemma ThresholdIsFractionIff(c: Config)
    requires c.Valid()
    ensures c.Threshold() == Fraction(c)
       <==> if c.denominator < INT64_LIMIT then c.Product() < INT64_LIMIT else WideExact(c)
  {
    if c.denominator < INT64_LIMIT {
      NarrowThresholdIff(c);
    } else if WideExact(c) {
      WideExactThreshold(c);
    } else if c.Threshold() == Fraction(c) {
      ExactThresholdWide(c);
    }
  }

  /** So is the test against the exact fraction for elapsed times that need not be differences of timestamps. */
  lemma ExactForAnyElapsedIff(c: Config)
    requires c.Valid()
    ensures (forall elapsed: int64 :: c.NeedsRefresh(elapsed) <==> elapsed * c.denominator > c.Product())
       <==> if c.denominator < INT64_LIMIT then c.Product() < INT64_LIMIT else WideExact(c)
  {
    ThresholdIsFractionIff(c);
    var t, q := c.Threshold(), Fraction(c);
    hide Fraction, WideExact, Config.Threshold, Config.Product;
    if t < q {
      assert c.NeedsRefresh(q);
    } else if q < t {
      assert !c.NeedsRefresh(t);
    }
  }

  // ---- The test against the exact fraction, over all timestamps ----

  /** The test and the exact fraction agree exactly when the same least difference of timestamps passes both. */
  lemma ExactIffSameNext(c: Config)
    requires c.Valid()
    ensures c.Exact() <==> NextMeasured(c.Threshold()) == NextMeasured(Fraction(c))
  {
    var t, q := c.Threshold(), Fraction(c);
    hide Elapsed, Measured, NextMeasured, Fraction, Config.Threshold, Config.Product;
    if NextMeasured(t) == NextMeasured(q) {
      forall latest: uint64, last: uint64
        ensures c.NeedsRefresh(Elapsed(latest, last)) <==> Elapsed(latest, last) * c.denominator > c.Product()
      {
        ElapsedMeasured(latest, last);
      }
    } else {
      var e := if NextMeasured(t) < NextMeasured(q) then NextMeasured(t) else NextMeasured(q);
      var latest, last := Timestamps(e);
    }
  }

  lemma SameNextIff(t: int64, q: int64)
    requires 0 <= t && 0 <= q
    ensures NextMeasured(t) == NextMeasured(q) <==> t / SECOND == q / SECOND && (t == MAX_INT64 <==> q == MAX_INT64)
  {
    QuotientBound(t, SECOND);
    QuotientBound(q, SECOND);
  }

  lemma LastFraction(c: Config)
    requires c.Valid()
    ensures Fraction(c) == MAX_INT64 <==> c.period == MAX_INT64 && c.numerator == c.denominator
  {
    MulMonotone(1, c.period, c.numerator);
    MulMonotone(c.numerator + 1, c.denominator, c.period);
    QuotientBelow(c.Product(), c.denominator, c.period);
  }

  lemma LastQuotient(n: int, m: int)
    requires -INT64_LIMIT <= n <= INT64_LIMIT && 0 < m && !(n == INT64_LIMIT && m == 1)
    ensures TruncDiv(n, m) == MAX_INT64 <==> n == MAX_INT64 && m == 1
  {
    if m == 1 {
      QuotientUnique(if n < 0 then -n else n, if n < 0 then -n else n, 0, 1);
    } else {
      QuotientBelow(if n < 0 then -n else n, m, MAX_INT64);
      MulMonotone(2, m, MAX_INT64);
    }
  }

  /** The threshold, where it is not negative, as a quotient of natural numbers. */
  lemma ThresholdNotNegative(c: Config)
    requires c.Valid()
    ensures c.Threshold() >= 0 <==> 0 < c.Dividend() + c.Divisor() && !c.QuotientWraps()
    ensures c.Threshold() >= 0 ==> c.Threshold() == c.Positive() / c.Divisor()
    ensures c.Threshold() == MAX_INT64 <==> c.Dividend() == MAX_INT64 && c.Divisor() == 1
  {
    var n, m := c.Dividend(), c.Divisor();
    hide Wrap64, Config.Threshold, Config.Dividend, Config.Divisor;
    ThresholdValue(c);
    TruncDivZero(n, m);
    if !c.QuotientWraps() {
      LastQuotient(n, m);
    }
  }

  /**
    For every valid rate: the test agrees with the exact fraction for all timestamps exactly when the
    two 64-bit integers and the two given ones have quotients in the same second.
    */
  lemma ExactIffSameSecond(c: Config)
    requires c.Valid()
    ensures c.Exact() <==>
            && 0 < c.Dividend() + c.Divisor() && !c.QuotientWraps()
            && c.Positive() / (c.Divisor() * SECOND) == c.Product() / (c.denominator * SECOND)
            && (c.Dividend() == MAX_INT64 && c.Divisor() == 1
                <==> c.period == MAX_INT64 && c.numerator == c.denominator)
  {
    var t, q := c.Threshold(), Fraction(c);
    ThresholdNotNegative(c);
    FractionSecond(c);
    LastFraction(c);
    if t >= 0 {
      ThresholdSecond(c);
      SameNextIff(t, q);
    } else {
      DifferentNext(t, q);
    }
    hide *;
    ExactIffSameNext(c);
  }

  lemma DifferentNext(t: int64, q: int64)
    requires t < 0 <= q
    ensures NextMeasured(t) <= 0 < NextMeasured(q)
  {
    assert Measured(0);
  }

  lemma FractionSecond(c: Config)
    requires c.Valid()
    ensures c.Product() / (c.denominator * SECOND) == Fraction(c) / SECOND
  {
    ProductBounds(c);
    hide Config.Product;
    QuotientOfQuotient(c.Product(), c.denominator, SECOND);
  }

  lemma ThresholdSecond(c: Config)
    requires c.Valid() && c.Threshold() >= 0
    ensures c.Positive() / (c.Divisor() * SECOND) == c.Threshold() / SECOND
  {
    hide Config.Threshold, Config.Dividend, Config.Divisor, Config.Positive;
    ThresholdValue(c);
    ThresholdNotNegative(c);
    QuotientOfQuotient(c.Positive(), c.Divisor(), SECOND);
  }

  /** As long as the denominator is small enough, the test is exact exactly when the product fits. */
  lemma ExactIffProductFits(c: Config)
    requires c.Valid() && c.denominator * (SECOND + 1) <= UINT64_LIMIT
    ensures c.Exact() <==> c.Product() < INT64_LIMIT
  {
    ExactIffSameNext(c);
    if c.Product() < INT64_LIMIT {
      ThresholdExact(0, c);
    } else {
      var latest, last := EarlyRefresh(c);
    }
  }

  lemma WholeSecond(t: int64, q: int64) returns (e: int64)
    requires (t < 0 <= q) || t + SECOND <= q
    ensures t < e <= q && Measured(e)
  {
    e := (t / SECOND + 1) * SECOND;
  }

  /** A product that does not fit makes the test fire too early for some timestamps. */
  lemma EarlyRefresh(c: Config) returns (latest: uint64, last: uint64)
    requires c.Valid() && c.denominator * (SECOND + 1) <= UINT64_LIMIT && INT64_LIMIT <= c.Product()
    ensures c.NeedsRefresh(Elapsed(latest, last)) && Elapsed(latest, last) * c.denominator <= c.Product()
  {
    var t, q := c.Threshold(), Fraction(c);
    hide Wrap64, Measured, Elapsed, Config.Threshold, Config.Product, Fraction;
    ThresholdTooLow(c);
    if t >= 0 {
      TimesApart(t, q, c.denominator, c.Product(), SECOND);
    }
    var next := WholeSecond(t, q);
    latest, last := Timestamps(next);
  }

  /** Beyond that a product that does not fit can go unnoticed: here threshold and fraction are below a second. */
  lemma ExactWithoutFitting()
    ensures var c := Config(10, INT64_LIMIT - 1, INT64_LIMIT - 1);
            c.Valid() && INT64_LIMIT <= c.Product() && c.Threshold() != Fraction(c) && c.Exact()
  {
    var c := Config(10, INT64_LIMIT - 1, INT64_LIMIT - 1);
    assert Wrap64(c.Product()) == -10;
    ThresholdValue(c);
    ExactIffSameNext(c);
  }

  /** A client that passes as fresh is within its period exactly when the threshold is below the next difference. */
  lemma SafeIffThresholdBelowNext(c: Config)
    requires c.Valid()
    ensures c.Safe() <==> c.Threshold() < NextMeasured(c.period)
  {
    var t, next := c.Threshold(), NextMeasured(c.period);
    hide Elapsed, Measured, NextMeasured, Config.Threshold;
    if t < next {
      forall latest: uint64, last: uint64 | !c.NeedsRefresh(Elapsed(latest, last))
        ensures Elapsed(latest, last) <= c.period
      {
        ElapsedMeasured(latest, last);
      }
    } else {
      var latest, last := Timestamps(next);
    }
  }

  /** For every valid rate: when a silent test means that the trusting period is not over. */
  lemma SafeIff(c: Config)
    requires c.Valid()
    ensures c.Safe() <==> c.Dividend() < NextMeasured(c.period) * c.Divisor() || c.QuotientWraps()
  {
    hide NextMeasured;
    SafeIffThresholdBelowNext(c);
    ThresholdBelowIff(c, NextMeasured(c.period));
  }

  /** The same for elapsed times that need not be differences of timestamps. */
  lemma WithinPeriodIff(c: Config)
    requires c.Valid()
    ensures (forall elapsed: int64 :: !c.NeedsRefresh(elapsed) ==> elapsed <= c.period)
       <==> c.Dividend() < (c.period + 1) * c.Divisor() || c.QuotientWraps()
  {
    ThresholdBelowIff(c, c.period + 1);
    hide Config.Threshold, Config.Dividend, Config.Divisor, Config.QuotientWraps;
    if c.period < c.Threshold() {
      assert !c.NeedsRefresh(c.Threshold());
    }
  }

  /** If the product or the denominator fits, a client that needs no refresh is within its trusting period. */
  lemma NoRefreshWithinPeriod(elapsed: int64, c: Config)
    requires c.Valid() && (c.denominator < INT64_LIMIT || c.Product() < INT64_LIMIT)
    requires !c.NeedsRefresh(elapsed)
    ensures elapsed <= c.period
  {
    if c.denominator < INT64_LIMIT {
      NarrowThresholdIff(c);
      if INT64_LIMIT <= c.Product() {
        ThresholdTooLow(c);
      }
    } else {
      MulMonotone(1, c.period, c.numerator);
      WrapSmall(c.Product());
      ThresholdBelowIff(c, 1);
    }
  }

  /** Both numbers near 2^64: twenty seconds past a trusting period of ten seconds, the client passes as fresh. */
  lemma ExpiredWithoutRefresh()
    ensures var c := Config(10 * SECOND, UINT64_LIMIT - 3, UINT64_LIMIT - 1);
            var elapsed := Elapsed(1_700_000_030, 1_700_000_000);
            c.Valid() && !c.NeedsRefresh(elapsed) && elapsed == 30 * SECOND > c.period
  {
    assert Wrap64(UINT64_LIMIT - 3) == -3 && Wrap64(UINT64_LIMIT - 1) == -1;
    assert Wrap64(10 * SECOND * -3) == -30 * SECOND && Wrap64(30 * SECOND) == 30 * SECOND;
    InternalSmall(1_700_000_030);
    InternalSmall(1_700_000_000);
  }
}
