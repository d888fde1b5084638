/**
 * The fairness test of the rejection sampler (PasswordGenerator.cs, lines 89-97): a byte
 * is kept only when it falls in one of the complete runs of `poolSize` consecutive values
 * that fit below `byte.MaxValue`, so that every index keeps exactly as many bytes.
 */
module Fairness {
  import opened Casts
  import opened Arithmetic

  /** `byte.MaxValue / poolSize`. */
  function FullSetsOfValues(poolSize: Byte): int
    requires poolSize >= 1
  {
    ByteMaxValue / poolSize
  }

  /**
   * `fullSetsOfValues` counts the complete runs of `poolSize` values below
   * `byte.MaxValue`: as many as fit, and at least one.
   */
  lemma FullSetsOfValuesBounds(poolSize: Byte)
    requires poolSize >= 1
    ensures var q := FullSetsOfValues(poolSize);
      1 <= q && poolSize * q <= ByteMaxValue < poolSize * (q + 1)
  {
    var q := FullSetsOfValues(poolSize);
    assert ByteMaxValue == poolSize * q + ByteMaxValue % poolSize;
    assert poolSize * (q + 1) == poolSize * q + poolSize;
  }

  /**
   * `poolSize * fullSetsOfValues`, the bound below which a byte is fair: the largest
   * multiple of `poolSize` that is at most `byte.MaxValue`.
   */
  function Threshold(poolSize: Byte): (t: int)
    requires poolSize >= 1
    ensures t % poolSize == 0 && t / poolSize == FullSetsOfValues(poolSize)
    ensures poolSize <= t <= ByteMaxValue
    ensures ByteMaxValue - t < poolSize
  {
    var q := FullSetsOfValues(poolSize);
    assert ByteMaxValue == poolSize * q + ByteMaxValue % poolSize;
    assert q >= 1;
    MulNonNegative(poolSize, q - 1);
    MultipleDivMod(poolSize, q);
    poolSize * q
  }

  /** `IsFairRoll`; a `poolSize` of 0 divides by zero in the source, hence the precondition. */
  predicate IsFairRoll(randomNumber: Byte, poolSize: Byte)
    requires poolSize >= 1
  {
    randomNumber < poolSize * FullSetsOfValues(poolSize)
  }

  /**
   * The reading given by the comment at lines 91-94: a byte is fair exactly when the
   * whole run of `poolSize` values that contains it lies within 0..byte.MaxValue - 1,
   * so byte 0 is always fair and byte.MaxValue never is.
   */
  lemma FairIffInCompleteSet(b: Byte, poolSize: Byte)
    requires poolSize >= 1
    ensures IsFairRoll(b, poolSize) <==> (b / poolSize + 1) * poolSize <= ByteMaxValue
    ensures IsFairRoll(0, poolSize) && !IsFairRoll(ByteMaxValue, poolSize)
  {
    var t := Threshold(poolSize);
    if b < t {
      FairRunFits(b, poolSize);
    } else {
      UnfairRunOverflows(b, poolSize);
    }
  }

  /** A byte below the threshold lies in a run that ends within 0..byte.MaxValue - 1. */
  lemma FairRunFits(b: Byte, n: Byte)
    requires n >= 1 && b < Threshold(n)
    ensures (b / n + 1) * n <= ByteMaxValue
  {
    var q, s := FullSetsOfValues(n), b / n;
    assert b == n * s + b % n && 0 <= b % n < n;
    if s >= q {
      MulMonotone(n, n, q, s);
    }
    MulMonotone(n, n, s + 1, q);
    assert (s + 1) * n == n * (s + 1);
  }

  /** A byte at or above the threshold lies in a run that passes byte.MaxValue. */
  lemma UnfairRunOverflows(b: Byte, n: Byte)
    requires n >= 1 && b >= Threshold(n)
    ensures (b / n + 1) * n > ByteMaxValue
  {
    var q, s := FullSetsOfValues(n), b / n;
    assert b == n * s + b % n && 0 <= b % n < n;
    assert n * (s + 1) == n * s + n && n * (q + 1) == Threshold(n) + n;
    if s < q {
      MulMonotone(n, n, s + 1, q);
    }
    MulMonotone(n, n, q + 1, s + 1);
    assert (s + 1) * n == n * (s + 1);
  }

  /** The fair bytes below `hi` that select index `k`. */
  ghost function AcceptingBelow(poolSize: Byte, k: int, hi: int): set<int>
    requires poolSize >= 1
  {
    set b: int | 0 <= b < hi && 0 <= b < 256 && IsFairRoll(b, poolSize) && b % poolSize == k
  }

  /** The fair bytes that select index `k`: the bytes `b` with `b % poolSize == k` kept by IsFairRoll. */
  ghost function AcceptingBytes(poolSize: Byte, k: int): set<int>
    requires poolSize >= 1
  {
    AcceptingBelow(poolSize, k, 256)
  }

  /** Raising the bound past a fair byte adds that byte exactly when it selects `k`. */
  lemma AcceptingBelowStep(n: Byte, k: int, b: int)
    requires n >= 1 && 0 <= b < Threshold(n)
    ensures b !in AcceptingBelow(n, k, b)
    ensures AcceptingBelow(n, k, b + 1) == if b % n == k then AcceptingBelow(n, k, b) + {b} else AcceptingBelow(n, k, b)
  {
    assert IsFairRoll(b, n);
  }

  lemma {:induction false} AcceptingBelowCount(n: Byte, k: int, hi: int)
    requires n >= 1 && 0 <= k < n && 0 <= hi <= Threshold(n)
    ensures |AcceptingBelow(n, k, hi)| == hi / n + (if hi % n > k then 1 else 0)
  {
    if hi > 0 {
      AcceptingBelowCount(n, k, hi - 1);
      AcceptingBelowStep(n, k, hi - 1);
      CountStep(hi - 1, n, k);
    }
  }

  /** The count formula of AcceptingBelowCount, one byte further. */
  lemma CountStep(b: int, n: int, k: int)
    requires b >= 0 && 0 <= k < n
    ensures b / n + (if b % n > k then 1 else 0) + (if b % n == k then 1 else 0) ==
      (b + 1) / n + (if (b + 1) % n > k then 1 else 0)
  {
    DivModStep(b, n);
  }

  /**
   * No modulo bias: every index `k` in [0, poolSize) is produced by exactly
   * `byte.MaxValue / poolSize` fair byte values.
   */
  lemma AcceptingBytesCount(poolSize: Byte, k: int)
    requires poolSize >= 1 && 0 <= k < poolSize
    ensures |AcceptingBytes(poolSize, k)| == FullSetsOfValues(poolSize)
  {
    var t := Threshold(poolSize);
    AcceptingBelowCount(poolSize, k, t);
    assert AcceptingBytes(poolSize, k) == AcceptingBelow(poolSize, k, t);
  }

  /** Consequently any two indices are equally likely under a uniform byte. */
  lemma NoModuloBias(poolSize: Byte, k1: int, k2: int)
    requires poolSize >= 1 && 0 <= k1 < poolSize && 0 <= k2 < poolSize
    ensures |AcceptingBytes(poolSize, k1)| == |AcceptingBytes(poolSize, k2)| > 0
  {
    AcceptingBytesCount(poolSize, k1);
    AcceptingBytesCount(poolSize, k2);
  }
}
