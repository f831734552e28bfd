/** The round-robin choice of an endpoint with a 32-bit counter that wraps. */
module Selector {
  import opened Integers

  class Selector<T> {
    var value: uint32
    const target: seq<T>

    constructor (target: seq<T>)
      requires 0 < |target| < UINT32_LIMIT
      ensures this.target == target && value == 0
    {
      this.target := target;
      value := 0;
    }

    method Get() returns (t: T)
      requires 0 < |target| < UINT32_LIMIT
      modifies this
      ensures value == (old(value) + 1) % UINT32_LIMIT
      ensures t == target[Pick(old(value), 1, |target|)]
    {
      value := (value + 1) % UINT32_LIMIT;
      var index := value % |target|;
      return target[index];
    }
  }

  /** The index chosen by the `j`-th call after the counter stood at `start`. */
  function Pick(start: nat, j: nat, n: nat): (index: nat)
    requires 0 < n
    ensures index < n
  {
    (start + j) % UINT32_LIMIT % n
  }

  /** The counter after some calls gives the same picks as counting on. */
  lemma PickShift(start: uint32, i: nat, j: nat, n: nat)
    requires 0 < n
    ensures Pick((start + i) % UINT32_LIMIT, j, n) == Pick(start, i + j, n)
  {
    var m, q := UINT32_LIMIT, (start + i) / UINT32_LIMIT;
    var a := (start + i) % m + j;
    assert start + i + j == q * m + a;
    assert a == a / m * m + a % m;
    QuotientUnique(start + i + j, q + a / m, a % m, m);
  }

  /** How often target `t` is chosen in the first `calls` calls. */
  function Count(start: nat, calls: nat, n: nat, t: nat): nat
    requires 0 < n
  {
    if calls == 0 then 0
    else Count(start, calls - 1, n, t) + if Pick(start, calls, n) == t then 1 else 0
  }

  // ---- Counting without a wrap ----

  /** How many of the `length` integers from `from` on are `t` modulo `n`. */
  function Residues(from: nat, length: nat, n: nat, t: nat): nat
    requires 0 < n
  {
    if length == 0 then 0
    else Residues(from, length - 1, n, t) + if (from + length - 1) % n == t then 1 else 0
  }

  lemma {:induction false} ResiduesSplit(from: nat, a: nat, b: nat, n: nat, t: nat)
    requires 0 < n
    ensures Residues(from, a + b, n, t) == Residues(from, a, n, t) + Residues(from + a, b, n, t)
  {
    if b > 0 {
      ResiduesSplit(from, a, b - 1, n, t);
    }
  }

  lemma ModShift(x: nat, n: nat)
    requires 0 < n
    ensures (x + n) % n == x % n
  {
    QuotientUnique(x + n, x / n + 1, x % n, n);
  }

  lemma {:induction false} ResiduesFromZero(length: nat, n: nat, t: nat)
    requires length <= n && t < n
    ensures Residues(0, length, n, t) == if t < length then 1 else 0
  {
    if length > 0 {
      ResiduesFromZero(length - 1, n, t);
      QuotientUnique(length - 1, 0, length - 1, n);
    }
  }

  /** Each of `n` integers in a row has its own residue. */
  lemma {:induction false} FullCycle(from: nat, n: nat, t: nat)
    requires t < n
    ensures Residues(from, n, n, t) == 1
  {
    if from == 0 {
      ResiduesFromZero(n, n, t);
    } else {
      FullCycle(from - 1, n, t);
      ResiduesSplit(from - 1, 1, n, n, t);
      ResiduesSplit(from - 1, n, 1, n, t);
      ModShift(from - 1, n);
      assert Residues(from - 1, 1, n, t) == if (from - 1) % n == t then 1 else 0;
      assert Residues(from - 1 + n, 1, n, t) == if (from - 1 + n) % n == t then 1 else 0;
    }
  }

  lemma {:induction false} NoResidues(from: nat, n: nat, t: nat)
    requires 0 < n
    ensures Residues(from, 0, n, t) == 0
  {
  }

  lemma {:induction false} Cycles(from: nat, k: nat, n: nat, t: nat)
    requires t < n
    ensures Residues(from, k * n, n, t) == k
  {
    hide Residues;
    if k == 0 {
      NoResidues(from, n, t);
    } else {
      assert k * n == (k - 1) * n + n;
      Cycles(from, k - 1, n, t);
      FullCycle(from + (k - 1) * n, n, t);
      ResiduesSplit(from, (k - 1) * n, n, n, t);
    }
  }

  /** Any stretch without a wrap is balanced up to one. */
  lemma {:induction false} BalancedStretch(from: nat, length: nat, n: nat, t: nat, u: nat)
    requires t < n && u < n
    ensures Residues(from, length, n, t) <= Residues(from, length, n, u) + 1
    decreases length
  {
    if length < n {
      FullCycle(from, n, t);
      ResiduesSplit(from, length, n - length, n, t);
    } else {
      BalancedStretch(from, length - n, n, t, u);
      FullCycle(from + (length - n), n, t);
      FullCycle(from + (length - n), n, u);
      ResiduesSplit(from, length - n, n, n, t);
      ResiduesSplit(from, length - n, n, n, u);
    }
  }

  // ---- Windows of calls ----

  lemma {:induction false} CountUnwrapped(start: nat, calls: nat, n: nat, t: nat)
    requires 0 < n && start + calls < UINT32_LIMIT
    ensures Count(start, calls, n, t) == Residues(start + 1, calls, n, t)
  {
    if calls > 0 {
      CountUnwrapped(start, calls - 1, n, t);
      QuotientUnique(start + calls, 0, start + calls, UINT32_LIMIT);
    }
  }

  lemma PickAfterWrap(start: uint32, j: nat, n: nat)
    requires 0 < n && UINT32_LIMIT <= start + j < 2 * UINT32_LIMIT
    ensures Pick(start, j, n) == (start + j - UINT32_LIMIT) % n
  {
    QuotientUnique(start + j, 1, start + j - UINT32_LIMIT, UINT32_LIMIT);
  }

  /** The picks before a wrap and the picks after it. */
  lemma {:induction false} CountWrapped(start: uint32, calls: nat, n: nat, t: nat)
    requires 0 < n && UINT32_LIMIT <= start + calls < 2 * UINT32_LIMIT
    ensures var before := UINT32_LIMIT - 1 - start;
            Count(start, calls, n, t) == Residues(start + 1, before, n, t) + Residues(0, calls - before, n, t)
  {
    hide Pick;
    var before := UINT32_LIMIT - 1 - start;
    PickAfterWrap(start, calls, n);
    if calls - 1 == before {
      CountUnwrapped(start, before, n, t);
      assert Residues(0, 1, n, t) == if 0 % n == t then 1 else 0;
    } else {
      CountWrapped(start, calls - 1, n, t);
    }
  }

  /** Without a wrap, `k` rounds pick every target `k` times. */
  lemma {:induction false} FairWithoutWrap(start: uint32, k: nat, n: nat, t: nat)
    requires t < n && start + k * n < UINT32_LIMIT
    ensures Count(start, k * n, n, t) == k
  {
    CountUnwrapped(start, k * n, n, t);
    Cycles(start + 1, k, n, t);
  }

  lemma ModDivides(x: nat, n: nat)
    requires 0 < n && UINT32_LIMIT % n == 0
    ensures x % UINT32_LIMIT % n == x % n
  {
    var q, r := x / UINT32_LIMIT, x % UINT32_LIMIT;
    var m := UINT32_LIMIT / n;
    assert UINT32_LIMIT == m * n;
    assert x == q * UINT32_LIMIT + r;
    assert q * (m * n) == (q * m) * n;
    assert r == (r / n) * n + r % n;
    assert (q * m) * n + (r / n) * n == (q * m + r / n) * n;
    QuotientUnique(x, q * m + r / n, r % n, n);
  }

  lemma {:induction false} CountDividing(start: nat, calls: nat, n: nat, t: nat)
    requires 0 < n && UINT32_LIMIT % n == 0
    ensures Count(start, calls, n, t) == Residues(start + 1, calls, n, t)
  {
    if calls > 0 {
      CountDividing(start, calls - 1, n, t);
      ModDivides(start + calls, n);
    }
  }

  /** `k` rounds from `start` pick every target `k` times. */
  ghost predicate Fair(start: uint32, k: nat, n: nat)
    requires 0 < n
  {
    forall t :: 0 <= t < n ==> Count(start, k * n, n, t) == k
  }

  /** Rounds are fair wherever they start exactly when the number of targets divides the counter's range. */
  lemma FairEverywhereIffDivides(n: nat)
    requires 0 < n < UINT32_LIMIT
    ensures (forall start: uint32, k: nat :: Fair(start, k, n)) <==> UINT32_LIMIT % n == 0
  {
    if UINT32_LIMIT % n == 0 {
      forall start: uint32, k: nat
        ensures Fair(start, k, n)
      {
        FairIfDivides(start, k, n);
      }
    } else {
      UnfairRound(n);
    }
  }

  lemma FairIfDivides(start: uint32, k: nat, n: nat)
    requires 0 < n && UINT32_LIMIT % n == 0
    ensures Fair(start, k, n)
  {
    forall t | 0 <= t < n
      ensures Count(start, k * n, n, t) == k
    {
      CountDividing(start, k * n, n, t);
      Cycles(start + 1, k, n, t);
    }
  }

  // ---- One window over a wrap ----

  lemma {:induction false} ResiduesHit(from: nat, length: nat, n: nat, t: nat, i: nat)
    requires 0 < n && i < length && (from + i) % n == t
    ensures 1 <= Residues(from, length, n, t)
  {
    if i < length - 1 {
      ResiduesHit(from, length - 1, n, t, i);
    }
  }

  /** Numbers inside one round, all on one side of `t`. */
  lemma {:induction false} ResiduesMiss(m: nat, first: nat, length: nat, n: nat, t: nat)
    requires first + length <= n && 0 < n && (t < first || first + length <= t)
    ensures Residues(m * n + first, length, n, t) == 0
  {
    if length > 0 {
      ResiduesMiss(m, first, length - 1, n, t);
      QuotientUnique(m * n + first + (length - 1), m, first + (length - 1), n);
    }
  }

  lemma BeforeWrap(start: uint32, n: nat, t: nat)
    requires t < n
    ensures var before := UINT32_LIMIT - 1 - start;
            Residues(start + 1, before, n, t)
            == before / n + Residues(UINT32_LIMIT - before % n, before % n, n, t)
  {
    hide Residues;
    var before: nat := UINT32_LIMIT - 1 - start;
    var q: nat := before / n;
    assert before == q * n + before % n;
    ResiduesSplit(start + 1, q * n, before % n, n, t);
    Cycles(start + 1, q, n, t);
  }

  lemma AfterWrap(first: nat, rounds: nat, n: nat, t: nat)
    requires t < n && first <= n
    ensures Residues(0, first + rounds * n, n, t) == rounds + if t < first then 1 else 0
  {
    hide Residues;
    ResiduesSplit(0, first, rounds * n, n, t);
    ResiduesFromZero(first, n, t);
    Cycles(first, rounds, n, t);
  }

  lemma RoundsLeft(before: nat, k: nat, n: nat) returns (left: nat)
    requires 0 < n && before < k * n
    ensures left == k - before / n - 1 && k * n - before == (n - before % n) + left * n
  {
    var q := before / n;
    assert before == q * n + before % n;
    MulMonotone(k, q, n);
    left := k - q - 1;
    assert k * n == q * n + n + left * n;
  }

  /** A part of a round in front of the wrap and the rest of one behind it. */
  lemma {:induction false} CountOverWrap(start: uint32, k: nat, n: nat, t: nat)
    requires t < n && UINT32_LIMIT <= start + k * n < 2 * UINT32_LIMIT
    ensures var part := (UINT32_LIMIT - 1 - start) % n;
            Count(start, k * n, n, t)
            == k - 1 + Residues(UINT32_LIMIT - part, part, n, t) + if t < n - part then 1 else 0
  {
    hide Count, Residues;
    var before: nat := UINT32_LIMIT - 1 - start;
    var left := RoundsLeft(before, k, n);
    CountWrapped(start, k * n, n, t);
    BeforeWrap(start, n, t);
    AfterWrap(n - before % n, left, n, t);
  }

  /** The target that a window treats unfairly, if neither the range nor the part before the wrap is whole rounds. */
  lemma UnfairTarget(part: nat, n: nat) returns (t: nat)
    requires 0 < part < n < UINT32_LIMIT && UINT32_LIMIT % n != 0
    ensures t < n && Residues(UINT32_LIMIT - part, part, n, t) + (if t < n - part then 1 else 0) != 1
  {
    var from: nat, m, rest := UINT32_LIMIT - part, UINT32_LIMIT / n, UINT32_LIMIT % n;
    assert UINT32_LIMIT == m * n + rest;
    if rest <= part {
      t := 0;
      QuotientUnique(from + (part - rest), m, 0, n);
      ResiduesHit(from, part, n, 0, part - rest);
    } else {
      t := n - 1;
      ResiduesMiss(m, rest - part, part, n, t);
    }
  }

  lemma FairOverWrapIff(start: uint32, k: nat, n: nat)
    requires 0 < n < UINT32_LIMIT && start + k * n < 2 * UINT32_LIMIT
    ensures Fair(start, k, n)
       <==> start + k * n < UINT32_LIMIT || UINT32_LIMIT % n == 0 || (UINT32_LIMIT - 1 - start) % n == 0
  {
    var part := (UINT32_LIMIT - 1 - start) % n;
    hide Count, Residues;
    if start + k * n < UINT32_LIMIT {
      forall t | 0 <= t < n
        ensures Count(start, k * n, n, t) == k
      {
        FairWithoutWrap(start, k, n, t);
      }
    } else if UINT32_LIMIT % n == 0 {
      FairIfDivides(start, k, n);
    } else if part == 0 {
      forall t | 0 <= t < n
        ensures Count(start, k * n, n, t) == k
      {
        CountOverWrap(start, k, n, t);
        NoResidues(UINT32_LIMIT, n, t);
      }
    } else {
      var t := UnfairTarget(part, n);
      CountOverWrap(start, k, n, t);
    }
  }

  // ---- Windows over several wraps ----

  lemma {:induction false} CountSplit(start: uint32, a: nat, b: nat, n: nat, t: nat)
    requires 0 < n
    ensures Count(start, a + b, n, t) == Count(start, a, n, t) + Count((start + a) % UINT32_LIMIT, b, n, t)
  {
    if b > 0 {
      CountSplit(start, a, b - 1, n, t);
      PickShift(start, a, b, n);
    }
  }

  /** Counting up from 0, target 0 is never behind the last one. */
  lemma {:induction false} FromZeroAhead(length: nat, n: nat)
    requires 1 < n
    ensures Residues(0, length, n, n - 1) <= Residues(0, length, n, 0)
  {
    if length <= n {
      ResiduesFromZero(length, n, n - 1);
      ResiduesFromZero(length, n, 0);
    } else {
      hide Residues;
      FromZeroAhead(length - n, n);
      ResiduesSplit(0, length - n, n, n, 0);
      ResiduesSplit(0, length - n, n, n, n - 1);
      FullCycle(length - n, n, 0);
      FullCycle(length - n, n, n - 1);
    }
  }

  /** The whole range of the counter, if it is not whole rounds, picks target 0 once more than the last one. */
  lemma {:induction false} RangeAhead(n: nat)
    requires 0 < n && UINT32_LIMIT % n != 0
    ensures Residues(0, UINT32_LIMIT, n, 0) == Residues(0, UINT32_LIMIT, n, n - 1) + 1
  {
    hide Residues;
    var m, rest := UINT32_LIMIT / n, UINT32_LIMIT % n;
    assert UINT32_LIMIT == rest + m * n;
    AfterWrap(rest, m, n, 0);
    AfterWrap(rest, m, n, n - 1);
  }

  lemma {:induction false} PartOfCycle(from: nat, length: nat, n: nat, t: nat)
    requires t < n && length <= n
    ensures Residues(from, length, n, t) <= 1
  {
    hide Residues;
    ResiduesSplit(from, length, n - length, n, t);
    FullCycle(from, n, t);
  }

  /** Counting up to the end of the range, target 0 is not behind the last one either. */
  lemma {:induction false} ToEndAhead(length: nat, n: nat)
    requires 0 < n && UINT32_LIMIT % n != 0 && length <= UINT32_LIMIT
    ensures Residues(UINT32_LIMIT - length, length, n, n - 1) <= Residues(UINT32_LIMIT - length, length, n, 0)
  {
    var from, m, rest := UINT32_LIMIT - length, UINT32_LIMIT / n, UINT32_LIMIT % n;
    assert UINT32_LIMIT == m * n + rest;
    hide Residues;
    if length <= rest {
      ResiduesMiss(m, rest - length, length, n, n - 1);
    } else if length <= n {
      QuotientUnique(from + (length - rest), m, 0, n);
      ResiduesHit(from, length, n, 0, length - rest);
      PartOfCycle(from, length, n, n - 1);
    } else {
      ToEndAhead(length - n, n);
      ResiduesSplit(from, n, length - n, n, 0);
      ResiduesSplit(from, n, length - n, n, n - 1);
      FullCycle(from, n, 0);
      FullCycle(from, n, n - 1);
    }
  }

  /** From a wrap on, target 0 is never behind the last one, and ahead of it after the whole range. */
  lemma {:induction false} AfterWrapAhead(calls: nat, n: nat)
    requires 0 < n && UINT32_LIMIT % n != 0
    ensures Count(UINT32_LIMIT - 1, calls, n, n - 1) + (if calls >= UINT32_LIMIT then 1 else 0)
            <= Count(UINT32_LIMIT - 1, calls, n, 0)
  {
    NotOne(n);
    if calls == 0 {
    } else if calls <= UINT32_LIMIT {
      hide Count, Residues;
      CountFromWrap(calls, n, 0);
      CountFromWrap(calls, n, n - 1);
      FromZeroAhead(calls, n);
      RangeAhead(n);
    } else {
      hide Count, Residues;
      AfterWrapAhead(calls - UINT32_LIMIT, n);
      CountSplit(UINT32_LIMIT - 1, UINT32_LIMIT, calls - UINT32_LIMIT, n, 0);
      CountSplit(UINT32_LIMIT - 1, UINT32_LIMIT, calls - UINT32_LIMIT, n, n - 1);
      CountFromWrap(UINT32_LIMIT, n, 0);
      CountFromWrap(UINT32_LIMIT, n, n - 1);
      RangeAhead(n);
    }
  }

  lemma NotOne(n: nat)
    requires 0 < n && UINT32_LIMIT % n != 0
    ensures 1 < n
  {
    QuotientUnique(UINT32_LIMIT, UINT32_LIMIT, 0, 1);
  }

  lemma {:induction false} CountFromWrap(calls: nat, n: nat, t: nat)
    requires 0 < n && 0 < calls <= UINT32_LIMIT
    ensures Count(UINT32_LIMIT - 1, calls, n, t) == Residues(0, calls, n, t)
  {
    CountWrapped(UINT32_LIMIT - 1, calls, n, t);
    NoResidues(UINT32_LIMIT, n, t);
  }

  /** With two wraps or more, target 0 is picked more often than the last one. */
  lemma {:induction false} UnfairOverWraps(start: uint32, calls: nat, n: nat)
    requires 0 < n && UINT32_LIMIT % n != 0 && 2 * UINT32_LIMIT <= start + calls
    ensures Count(start, calls, n, n - 1) < Count(start, calls, n, 0)
  {
    var before: nat := UINT32_LIMIT - 1 - start;
    hide Count, Residues;
    CountSplit(start, before, calls - before, n, 0);
    CountSplit(start, before, calls - before, n, n - 1);
    CountUnwrapped(start, before, n, 0);
    CountUnwrapped(start, before, n, n - 1);
    ToEndAhead(before, n);
    QuotientUnique(UINT32_LIMIT - 1, 0, UINT32_LIMIT - 1, UINT32_LIMIT);
    AfterWrapAhead(calls - before, n);
  }

  /**
    A window is fair exactly when it does not wrap, or the number of targets divides the range of the
    counter, or there is one wrap and the number of targets divides the number of picks before it.
    */
  lemma FairWindowIff(start: uint32, k: nat, n: nat)
    requires 0 < n < UINT32_LIMIT
    ensures Fair(start, k, n)
       <==> || start + k * n < UINT32_LIMIT
            || UINT32_LIMIT % n == 0
            || (start + k * n < 2 * UINT32_LIMIT && (UINT32_LIMIT - 1 - start) % n == 0)
  {
    hide Count;
    if start + k * n < 2 * UINT32_LIMIT {
      FairOverWrapIff(start, k, n);
    } else if UINT32_LIMIT % n == 0 {
      FairIfDivides(start, k, n);
    } else {
      UnfairOverWraps(start, k * n, n);
    }
  }

  /** The round over a wrap that passes over the last target. */
  lemma UnfairRound(n: nat)
    requires 0 < n < UINT32_LIMIT && UINT32_LIMIT % n != 0
    ensures !Fair(UINT32_LIMIT - 2, 1, n)
  {
    var start, t := UINT32_LIMIT - 2, n - 1;
    var r := UINT32_LIMIT % n;
    assert UINT32_LIMIT == UINT32_LIMIT / n * n + r;
    QuotientUnique(UINT32_LIMIT - 1, UINT32_LIMIT / n, r - 1, n);
    assert n != 1 by {
      QuotientUnique(UINT32_LIMIT, UINT32_LIMIT, 0, 1);
    }
    CountWrapped(start, n, n, t);
    ResiduesFromZero(n - 1, n, t);
    assert Residues(start + 1, 1, n, t) == if (start + 1) % n == t then 1 else 0;
    assert Count(start, 1 * n, n, t) == 0;
  }

  /** A window with one wrap is balanced up to two, whatever its length. */
  lemma {:induction false} BalancedOverWrap(start: uint32, calls: nat, n: nat, t: nat, u: nat)
    requires t < n && u < n && start + calls < 2 * UINT32_LIMIT
    ensures Count(start, calls, n, t) <= Count(start, calls, n, u) + 2
  {
    if start + calls < UINT32_LIMIT {
      CountUnwrapped(start, calls, n, t);
      CountUnwrapped(start, calls, n, u);
      BalancedStretch(start + 1, calls, n, t, u);
    } else {
      var before := UINT32_LIMIT - 1 - start;
      CountWrapped(start, calls, n, t);
      CountWrapped(start, calls, n, u);
      BalancedStretch(start + 1, before, n, t, u);
      BalancedStretch(0, calls - before, n, t, u);
    }
  }

  /** Two apart is reached: three targets, two calls over the wrap. */
  lemma TwoApart()
    ensures Count(UINT32_LIMIT - 2, 2, 3, 0) == 2 && Count(UINT32_LIMIT - 2, 2, 3, 1) == 0
  {
    var start := UINT32_LIMIT - 2;
    CountWrapped(start, 2, 3, 0);
    CountWrapped(start, 2, 3, 1);
    hide Count;
    assert Residues(start + 1, 1, 3, 0) == 1 && Residues(start + 1, 1, 3, 1) == 0;
    assert Residues(0, 1, 3, 0) == 1 && Residues(0, 1, 3, 1) == 0;
  }
}
