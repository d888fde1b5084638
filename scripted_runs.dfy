/**
 * Runs of `PasswordGenerator` against the scripted sources of the test suite
 * (Passwords.Tests/PasswordGeneratorTests.cs, lines 61-142). A source that always writes
 * the same fair byte repeats one pool character; a counter from 0 walks the pool in
 * order, and a down-counter from the last index walks it backwards, both wrapping
 * around, because the bytes IsFairRoll rejects at the top of the byte range fill
 * exactly the gap left by a whole number of turns through the pool.
 */
module ScriptedRuns {
  import opened Wrappers
  import opened Casts
  import opened Arithmetic
  import opened Fairness
  import opened PasswordLength
  import opened RejectionSampling
  import opened NumberGenerators
  import opened ScheduledDraws
  import opened Passwords

  /** `Enumerable.Repeat(x, count)`: `x`, `count` times over. */
  function Repeat<T>(x: T, count: nat): (r: seq<T>)
    ensures |r| == count && forall i :: 0 <= i < count ==> r[i] == x
  {
    if count == 0 then [] else Repeat(x, count - 1) + [x]
  }

  /** `List.Reverse`: the last element first. */
  function Reverse(pool: seq<int>): (r: seq<int>)
    ensures |r| == |pool| && forall i :: 0 <= i < |pool| ==> r[i] == pool[|pool| - 1 - i]
  {
    if |pool| == 0 then [] else [pool[|pool| - 1]] + Reverse(pool[..|pool| - 1])
  }

  /** `SelectMany(x => x)`: the sequences one after another. */
  function Flatten(pools: seq<seq<int>>): (flat: seq<int>)
    ensures forall i, x :: 0 <= i < |pools| && x in pools[i] ==> x in flat
    ensures forall x :: x in flat ==> exists i :: 0 <= i < |pools| && x in pools[i]
  {
    if |pools| == 0 then [] else Flatten(pools[..|pools| - 1]) + pools[|pools| - 1]
  }

  /** `Take(count)`: the first `count` elements, or all of them if there are fewer. */
  function TakeFirst(s: seq<int>, count: nat): (first: seq<int>)
    ensures first <= s
    ensures |first| == if count <= |s| then count else |s|
  {
    if count <= |s| then s[..count] else s
  }

  /** `Select(i => (char) i)`. */
  function ToChars(s: seq<int>): (r: seq<Char16>)
    ensures |r| == |s| && forall i :: 0 <= i < |s| ==> r[i] == ToChar16(s[i])
  {
    if |s| == 0 then [] else ToChars(s[..|s| - 1]) + [ToChar16(s[|s| - 1])]
  }

  /**
   * The expected password of the counting tests (lines 113-117 and 134-138):
   * `count / |pool| + 1` copies of the pool end to end, cut to `count`, each cast to `char`.
   */
  function Cycle(pool: seq<int>, count: nat): seq<Char16>
    requires |pool| >= 1
  {
    ToChars(TakeFirst(Flatten(Repeat(pool, count / |pool| + 1)), count))
  }

  /** `k` copies of the pool end to end hold `pool[i % |pool|]` at position `i`. */
  lemma {:induction false} FlattenRepeatAt(pool: seq<int>, k: nat)
    requires |pool| >= 1
    ensures |Flatten(Repeat(pool, k))| == |pool| * k
    ensures forall i :: 0 <= i < |pool| * k ==> Flatten(Repeat(pool, k))[i] == pool[i % |pool|]
  {
    if k > 0 {
      var copies := Repeat(pool, k);
      assert copies[..k - 1] == Repeat(pool, k - 1);
      FlattenRepeatAt(pool, k - 1);
      assert Flatten(copies) == Flatten(Repeat(pool, k - 1)) + pool;
      AppendTurn(Flatten(Repeat(pool, k - 1)), pool, k - 1);
      assert |pool| * k == |pool| * (k - 1) + |pool|;
    }
  }

  /** One more copy of the pool after `q` whole copies keeps position `i` at `pool[i % |pool|]`. */
  lemma AppendTurn(front: seq<int>, pool: seq<int>, q: nat)
    requires |pool| >= 1 && |front| == |pool| * q
    requires forall i :: 0 <= i < |front| ==> front[i] == pool[i % |pool|]
    ensures forall i :: 0 <= i < |front| + |pool| ==> (front + pool)[i] == pool[i % |pool|]
  {
    forall i | |front| <= i < |front| + |pool|
      ensures (front + pool)[i] == pool[i % |pool|]
    {
      DivModUnique(i, |pool|, q, i - |front|);
    }
  }

  /** Character `i` of the repeated pool is `(char) pool[i % |pool|]`. */
  lemma CycleAt(pool: seq<int>, count: nat)
    requires |pool| >= 1
    ensures |Cycle(pool, count)| == count
    ensures forall i :: 0 <= i < count ==> Cycle(pool, count)[i] == ToChar16(pool[i % |pool|])
  {
    var k := count / |pool| + 1;
    FlattenRepeatAt(pool, k);
    BelowNextMultiple(count, |pool|);
    TakeTurns(Flatten(Repeat(pool, k)), pool, count);
  }

  /** The first `count` elements of a repeated pool, cast to `char`, hold `(char) pool[i % |pool|]`. */
  lemma TakeTurns(flat: seq<int>, pool: seq<int>, count: nat)
    requires |pool| >= 1 && count <= |flat|
    requires forall i :: 0 <= i < |flat| ==> flat[i] == pool[i % |pool|]
    ensures |ToChars(TakeFirst(flat, count))| == count
    ensures forall i :: 0 <= i < count ==> ToChars(TakeFirst(flat, count))[i] == ToChar16(pool[i % |pool|])
  {
    assert TakeFirst(flat, count) == flat[..count];
  }

  /** The indices `0, 1, ..., n - 1, 0, 1, ...`, `count` of them. */
  function CycledIndices(n: nat, count: nat): (r: seq<nat>)
    requires n >= 1
    ensures |r| == count
  {
    if count == 0 then [] else CycledIndices(n, count - 1) + [(count - 1) % n]
  }

  /** The indices `n - 1, n - 2, ..., 0, n - 1, ...`, `count` of them. */
  function ReversedIndices(n: nat, count: nat): (r: seq<nat>)
    requires n >= 1
    ensures |r| == count
  {
    if count == 0 then [] else ReversedIndices(n, count - 1) + [n - 1 - (count - 1) % n]
  }

  lemma {:induction false} CycledIndicesAt(n: nat, count: nat)
    requires n >= 1
    ensures forall i :: 0 <= i < count ==> CycledIndices(n, count)[i] == i % n
  {
    if count > 0 {
      CycledIndicesAt(n, count - 1);
    }
  }

  lemma {:induction false} ReversedIndicesAt(n: nat, count: nat)
    requires n >= 1
    ensures forall i :: 0 <= i < count ==> ReversedIndices(n, count)[i] == n - 1 - i % n
  {
    if count > 0 {
      ReversedIndicesAt(n, count - 1);
    }
  }

  /** Picking the pool at the cycled indices gives the pool repeated end to end. */
  lemma CycledPick(pool: seq<int>, count: nat)
    requires |pool| >= 1
    ensures forall i :: 0 <= i < count ==> CycledIndices(|pool|, count)[i] < |pool|
    ensures PickCharacters(pool, CycledIndices(|pool|, count)) == Cycle(pool, count)
  {
    CycledIndicesAt(|pool|, count);
    CycleAt(pool, count);
  }

  /** Picking the pool at the reversed indices gives the reversed pool repeated end to end. */
  lemma ReversedPick(pool: seq<int>, count: nat)
    requires |pool| >= 1
    ensures forall i :: 0 <= i < count ==> ReversedIndices(|pool|, count)[i] < |pool|
    ensures PickCharacters(pool, ReversedIndices(|pool|, count)) == Cycle(Reverse(pool), count)
  {
    CycleAt(Reverse(pool), count);
    MirroredPick(pool, Reverse(pool), Cycle(Reverse(pool), count));
  }

  /**
   * `ReversedPick` for any sequence `mirrored` that holds the pool back to
   * front and any `cycled` that repeats `mirrored` end to end.
   */
  lemma {:induction false} MirroredPick(pool: seq<int>, mirrored: seq<int>, cycled: seq<Char16>)
    requires |pool| >= 1 && |mirrored| == |pool|
    requires forall j :: 0 <= j < |pool| ==> mirrored[j] == pool[|pool| - 1 - j]
    requires forall i :: 0 <= i < |cycled| ==> cycled[i] == ToChar16(mirrored[i % |pool|])
    ensures forall i :: 0 <= i < |cycled| ==> ReversedIndices(|pool|, |cycled|)[i] < |pool|
    ensures PickCharacters(pool, ReversedIndices(|pool|, |cycled|)) == cycled
  {
    if |cycled| > 0 {
      var c := |cycled| - 1;
      var front := cycled[..c];
      MirroredPick(pool, mirrored, front);
      MirroredAt(pool, mirrored, c);
      var index := |pool| - 1 - c % |pool|;
      assert ReversedIndices(|pool|, |cycled|) == ReversedIndices(|pool|, c) + [index];
      PickCharactersSnoc(pool, ReversedIndices(|pool|, c), index);
      assert cycled == front + [cycled[c]];
    }
  }

  /** Position `i % |pool|` of a back-to-front pool holds the pool element that `ReversedIndices` picks at `i`. */
  lemma MirroredAt(pool: seq<int>, mirrored: seq<int>, i: nat)
    requires |pool| >= 1 && |mirrored| == |pool|
    requires forall j :: 0 <= j < |pool| ==> mirrored[j] == pool[|pool| - 1 - j]
    ensures 0 <= |pool| - 1 - i % |pool| < |pool|
    ensures mirrored[i % |pool|] == pool[|pool| - 1 - i % |pool|]
  {
    var j := i % |pool|;
    assert 0 <= j < |pool|;
  }

  /** A draw that starts on a fair byte ends there, after one call. */
  lemma FairFirstDraw(s: Schedule, n: Byte)
    requires n >= 1 && IsFairRoll(s.First(), n)
    ensures DrawIndex(s.Take(1), n) == Some(Draw(s.First() % n, 1))
  {
    assert s.Take(1) == [s.First()];
  }

  /** A counter at or above the threshold runs up to 255, wraps to the fair byte 0 and stops there. */
  lemma CountingWrapDraw(n: Byte, c: Byte)
    requires n >= 1 && Threshold(n) <= c
    ensures DrawIndex(Counting(c).Take(257 - c), n) == Some(Draw(0, 257 - c))
  {
    var bytes := Counting(c).Take(257 - c);
    CountingByteAt(c, 256 - c);
    assert IsFairRoll(0, n);
    forall j | 0 <= j < 256 - c
      ensures !IsFairRoll(bytes[j], n)
    {
      CountingByteAt(c, j);
    }
    assert bytes[256 - c] == 0 && 0 % n == 0 by {
      DivModUnique(0, n, 0, 0);
    }
    DrawIndexAt(bytes, n, 256 - c);
  }

  /** A down-counter at 255 runs down past the unfair bytes and stops at the threshold minus one. */
  lemma CountingDownWrapDraw(n: Byte)
    requires n >= 1
    ensures DrawIndex(CountingDown(ByteMaxValue).Take(257 - Threshold(n)), n) ==
      Some(Draw((Threshold(n) - 1) % n, 257 - Threshold(n)))
  {
    var t := Threshold(n);
    var bytes := CountingDown(ByteMaxValue).Take(257 - t);
    CountingDownByteAt(ByteMaxValue, 256 - t);
    forall j | 0 <= j < 256 - t
      ensures !IsFairRoll(bytes[j], n)
    {
      CountingDownByteAt(ByteMaxValue, j);
    }
    DrawIndexAt(bytes, n, 256 - t);
  }

  /** A constant fair byte gives its remainder on every draw, one call each. */
  lemma {:induction false} ConstantDraws(b: Byte, n: Byte, count: nat)
    requires n >= 1 && IsFairRoll(b, n)
    ensures DrawIndices(Constant(b).Take(count), n, count) == Some(Draws(Repeat(b % n, count), count))
  {
    if count > 0 {
      ConstantDraws(b, n, count - 1);
      ConstantAdvance(b, count - 1);
      FairFirstDraw(Constant(b), n);
      DrawIndicesThenDraw(Constant(b), n, count - 1, Draws(Repeat(b % n, count - 1), count - 1),
        Draw(b % n, 1), Draws(Repeat(b % n, count), count));
    }
  }

  /** The draw a counter standing at `c` makes: `c` itself when fair, else a run up to the wrap to 0. */
  function CountingDraw(n: Byte, c: Byte): Draw
    requires n >= 1
  {
    if c < Threshold(n) then Draw(c % n, 1) else Draw(0, 257 - c)
  }

  /** A counter standing at `c` draws CountingDraw and is left one past the byte it stopped at. */
  lemma CountingDrawFrom(n: Byte, c: Byte)
    requires n >= 1
    ensures DrawIndex(Counting(c).Take(CountingDraw(n, c).used), n) == Some(CountingDraw(n, c))
    ensures Counting(c).Advance(CountingDraw(n, c).used) == Counting(if c < Threshold(n) then c + 1 else 1)
  {
    if c < Threshold(n) {
      FairFirstDraw(Counting(c), n);
    } else {
      CountingWrapDraw(n, c);
      CountingAdvance(c, 257 - c);
    }
  }

  /**
   * Where a counter started at 0 stands after `i` draws with threshold `t`: at `i % t`,
   * except just after a draw of the last fair byte `t - 1`, when it stands at `t`.
   */
  function CountingState(t: int, i: nat): int
    requires t >= 1
  {
    if i > 0 && i % t == 0 then t else i % t
  }

  /** The bytes `count` draws from a counter started at 0 consume. */
  function CountingUsed(n: Byte, count: nat): nat
    requires n >= 1
  {
    if count == 0 then 0
    else CountingUsed(n, count - 1) + CountingDraw(n, CountingState(Threshold(n), count - 1)).used
  }

  /** From where draw `i` finds the counter, it draws index `i % n` and leaves the counter where draw `i + 1` finds it. */
  lemma CountingStateStep(n: Byte, i: nat)
    requires n >= 2
    ensures var c := CountingState(Threshold(n), i);
      && CountingDraw(n, c).index == i % n
      && CountingState(Threshold(n), i + 1) == if c < Threshold(n) then c + 1 else 1
  {
    assert Threshold(n) == n * FullSetsOfValues(n);
    CountingStateArithmetic(n, FullSetsOfValues(n), i);
  }

  /** CountingStateStep for a threshold `t == n * q`, as plain arithmetic. */
  lemma CountingStateArithmetic(n: int, q: int, i: nat)
    requires n >= 2 && q >= 1
    ensures var t := n * q; var c := CountingState(t, i);
      && (c < t ==> c % n == i % n)
      && (c >= t ==> c == t && i % n == 0)
      && CountingState(t, i + 1) == if c < t then c + 1 else 1
  {
    var t := n * q;
    MulMonotone(n, n, 1, q);
    ModOfMultiple(i, n, q);
    DivModStep(i, t);
  }

  /** `count` draws from a counter started at 0 give the indices `0, 1, ..., n - 1, 0, ...`. */
  lemma {:induction false} CountingDraws(n: Byte, count: nat)
    requires n >= 2
    ensures DrawIndices(Counting(0).Take(CountingUsed(n, count)), n, count) ==
      Some(Draws(CycledIndices(n, count), CountingUsed(n, count)))
    ensures Counting(0).Advance(CountingUsed(n, count)) == Counting(CountingState(Threshold(n), count))
  {
    if count == 0 {
      assert CountingState(Threshold(n), 0) == 0 by {
        DivModUnique(0, Threshold(n), 0, 0);
      }
    } else {
      var s := Counting(0);
      CountingDraws(n, count - 1);
      var u := CountingUsed(n, count - 1);
      var c := CountingState(Threshold(n), count - 1);
      var d := CountingDraw(n, c);
      CountingStateStep(n, count - 1);
      CountingDrawFrom(n, c);
      DrawIndicesThenDraw(s, n, count - 1, Draws(CycledIndices(n, count - 1), u), d,
        Draws(CycledIndices(n, count), CountingUsed(n, count)));
      AdvanceThrough(s, u, Counting(c), d.used, Counting(CountingState(Threshold(n), count)), CountingUsed(n, count));
    }
  }

  /** The draw a down-counter standing at `c` makes: `c` itself when fair, else a run down to the threshold minus one. */
  function CountingDownDraw(n: Byte, c: Byte): Draw
    requires n >= 1
  {
    if c < Threshold(n) then Draw(c % n, 1) else Draw((Threshold(n) - 1) % n, 257 - Threshold(n))
  }

  /** A down-counter standing at `c` draws CountingDownDraw and is left one below the byte it stopped at. */
  lemma CountingDownDrawFrom(n: Byte, c: Byte)
    requires n >= 1 && (c < Threshold(n) || c == ByteMaxValue)
    ensures DrawIndex(CountingDown(c).Take(CountingDownDraw(n, c).used), n) == Some(CountingDownDraw(n, c))
    ensures CountingDown(c).Advance(CountingDownDraw(n, c).used) ==
      CountingDown(if c == 0 then ByteMaxValue else if c < Threshold(n) then c - 1 else Threshold(n) - 2)
  {
    var t := Threshold(n);
    if c < t {
      FairFirstDraw(CountingDown(c), n);
    } else {
      CountingDownWrapDraw(n);
      CountingDownAdvance(c, 257 - t);
      assert ToByte(c - (257 - t)) == t - 2;
    }
  }

  /**
   * Where a down-counter started at `n - 1` stands after `i` draws with threshold `t`:
   * at `(n - 1 - i) mod t`, except just after a draw of the fair byte 0, when it
   * stands at 255.
   */
  function CountingDownState(n: int, t: int, i: nat): int
    requires t >= 1
  {
    if i > 0 && (n - 1 - i) % t == t - 1 then ByteMaxValue else (n - 1 - i) % t
  }

  /** The bytes `count` draws from a down-counter started at `n - 1` consume. */
  function CountingDownUsed(n: Byte, count: nat): nat
    requires n >= 1
  {
    if count == 0 then 0
    else CountingDownUsed(n, count - 1) + CountingDownDraw(n, CountingDownState(n, Threshold(n), count - 1)).used
  }

  /** From where draw `i` finds the down-counter, it draws index `n - 1 - i % n` and leaves it where draw `i + 1` finds it. */
  lemma CountingDownStateStep(n: Byte, i: nat)
    requires n >= 2
    ensures var c := CountingDownState(n, Threshold(n), i);
      && (c < Threshold(n) || c == ByteMaxValue)
      && CountingDownDraw(n, c).index == n - 1 - i % n
      && CountingDownState(n, Threshold(n), i + 1) ==
        if c == 0 then ByteMaxValue else if c < Threshold(n) then c - 1 else Threshold(n) - 2
  {
    var t := Threshold(n);
    var x := n - 1 - i;
    assert t >= 2;
    assert t == n * FullSetsOfValues(n);
    assert (x % t) % n == x % n by {
      ModOfMultiple(x, n, FullSetsOfValues(n));
    }
    assert (t - 1) % n == n - 1 by {
      assert t - 1 == n * (FullSetsOfValues(n) - 1) + (n - 1);
      DivModUnique(t - 1, n, FullSetsOfValues(n) - 1, n - 1);
    }
    ReverseMod(i, n);
    DivModStep(x - 1, t);
  }

  /** `count` draws from a down-counter started at `n - 1` give the indices `n - 1, ..., 0, n - 1, ...`. */
  lemma {:induction false} CountingDownDraws(n: Byte, count: nat)
    requires n >= 2
    ensures DrawIndices(CountingDown(n - 1).Take(CountingDownUsed(n, count)), n, count) ==
      Some(Draws(ReversedIndices(n, count), CountingDownUsed(n, count)))
    ensures CountingDown(n - 1).Advance(CountingDownUsed(n, count)) == CountingDown(CountingDownState(n, Threshold(n), count))
  {
    if count == 0 {
      assert CountingDownState(n, Threshold(n), 0) == n - 1 by {
        DivModUnique(n - 1, Threshold(n), 0, n - 1);
      }
    } else {
      CountingDownDraws(n, count - 1);
      CountingDownDrawsStep(n, count - 1);
    }
  }

  /** The inductive step of CountingDownDraws: draw `i` extends the first `i` draws. */
  lemma CountingDownDrawsStep(n: Byte, i: nat)
    requires n >= 2
    requires DrawIndices(CountingDown(n - 1).Take(CountingDownUsed(n, i)), n, i) ==
      Some(Draws(ReversedIndices(n, i), CountingDownUsed(n, i)))
    requires CountingDown(n - 1).Advance(CountingDownUsed(n, i)) == CountingDown(CountingDownState(n, Threshold(n), i))
    ensures DrawIndices(CountingDown(n - 1).Take(CountingDownUsed(n, i + 1)), n, i + 1) ==
      Some(Draws(ReversedIndices(n, i + 1), CountingDownUsed(n, i + 1)))
    ensures CountingDown(n - 1).Advance(CountingDownUsed(n, i + 1)) == CountingDown(CountingDownState(n, Threshold(n), i + 1))
  {
    var s := CountingDown(n - 1);
    var u := CountingDownUsed(n, i);
    var c := CountingDownState(n, Threshold(n), i);
    var d := CountingDownDraw(n, c);
    CountingDownStateStep(n, i);
    CountingDownDrawFrom(n, c);
    DrawIndicesThenDraw(s, n, i, Draws(ReversedIndices(n, i), u), d,
      Draws(ReversedIndices(n, i + 1), CountingDownUsed(n, i + 1)));
    AdvanceThrough(s, u, CountingDown(c), d.used, CountingDown(CountingDownState(n, Threshold(n), i + 1)), CountingDownUsed(n, i + 1));
  }

  /** The requests the generator serves for a non-empty pool: entropy at least 1, two or more characters, at most 256 of them needed. */
  predicate Servable(minimumEntropy: int, pool: seq<int>)
  {
    minimumEntropy >= 1 && |pool| >= 2 && MinimalLength(minimumEntropy, |pool|) <= MaxPasswordLength
  }

  /**
   * A request the generator serves, against a source whose draws pick `expected`:
   * some run of the source generates `expected`.
   */
  lemma ServedRun(minimumEntropy: int, pool: seq<int>, s: Schedule, ds: Draws, expected: seq<Char16>)
    requires Servable(minimumEntropy, pool) && |pool| <= 255
    requires DrawIndices(s.Take(ds.used), |pool|, MinimalLength(minimumEntropy, |pool|)) == Some(ds)
    requires PickCharacters(pool, ds.indices) == expected
    ensures exists u: nat :: GeneratePasswordFrom(minimumEntropy, Some(pool), s.Take(u)) == Generated(expected, u)
  {
    assert ComputePasswordLength(minimumEntropy, |pool|) == Some(MinimalLength(minimumEntropy, |pool|));
    assert GeneratePasswordFrom(minimumEntropy, Some(pool), s.Take(ds.used)) == Generated(expected, ds.used);
  }

  /** Against a source that always writes the fair byte `b`, the password repeats the character at index `b % n`. */
  lemma ConstantSourceRun(minimumEntropy: int, pool: seq<int>, b: Byte)
    requires Servable(minimumEntropy, pool) && |pool| <= 255 && IsFairRoll(b, |pool|)
    ensures exists u: nat ::
      GeneratePasswordFrom(minimumEntropy, Some(pool), Constant(b).Take(u)) == Generated(Repeat(ToChar16(pool[b % |pool|]), MinimalLength(minimumEntropy, |pool|)), u)
  {
    var n, L := |pool|, MinimalLength(minimumEntropy, |pool|);
    ConstantDraws(b, n, L);
    var ds := Draws(Repeat(b % n, L), L);
    var expected := Repeat(ToChar16(pool[b % n]), L);
    assert PickCharacters(pool, ds.indices) == expected;
    ServedRun(minimumEntropy, pool, Constant(b), ds, Repeat(ToChar16(pool[b % |pool|]), MinimalLength(minimumEntropy, |pool|)));
  }

  /** Against a counter from 0, the password is the pool repeated end to end. */
  lemma IncreasingSourceRun(minimumEntropy: int, pool: seq<int>)
    requires Servable(minimumEntropy, pool) && |pool| <= 255
    ensures exists u: nat ::
      GeneratePasswordFrom(minimumEntropy, Some(pool), Counting(0).Take(u)) == Generated(Cycle(pool, MinimalLength(minimumEntropy, |pool|)), u)
  {
    var L := MinimalLength(minimumEntropy, |pool|);
    CountingDraws(|pool|, L);
    CycledPick(pool, L);
    var ds := Draws(CycledIndices(|pool|, L), CountingUsed(|pool|, L));
    ServedRun(minimumEntropy, pool, Counting(0), ds, Cycle(pool, L));
  }

  /** Against a down-counter from the last index, the password is the reversed pool repeated end to end. */
  lemma DecreasingSourceRun(minimumEntropy: int, pool: seq<int>)
    requires Servable(minimumEntropy, pool) && |pool| <= 255
    ensures exists u: nat ::
      GeneratePasswordFrom(minimumEntropy, Some(pool), CountingDown(|pool| - 1).Take(u)) == Generated(Cycle(Reverse(pool), MinimalLength(minimumEntropy, |pool|)), u)
  {
    var L := MinimalLength(minimumEntropy, |pool|);
    CountingDownDraws(|pool|, L);
    ReversedPick(pool, L);
    var ds := Draws(ReversedIndices(|pool|, L), CountingDownUsed(|pool|, L));
    ServedRun(minimumEntropy, pool, CountingDown(|pool| - 1), ds, Cycle(Reverse(pool), L));
  }

  /**
   * Against a source that always writes the last index, the password repeats the last
   * character. The schedule is the parameter `s` rather than `Constant(|pool| - 1)` written
   * out so that the existential has a term to trigger on: `Constant(|pool| - 1).Take(u)`
   * holds arithmetic, which a trigger may not contain.
   */
  lemma LastIndexSourceRun(minimumEntropy: int, pool: seq<int>, s: Schedule)
    requires Servable(minimumEntropy, pool) && |pool| <= 255
    requires s == Constant(|pool| - 1)
    ensures exists u: nat ::
      GeneratePasswordFrom(minimumEntropy, Some(pool), s.Take(u)) == Generated(Repeat(ToChar16(pool[|pool| - 1]), MinimalLength(minimumEntropy, |pool|)), u)
  {
    var n := |pool|;
    assert IsFairRoll(n - 1, n) by { assert Threshold(n) >= n; }
    assert (n - 1) % n == n - 1 by { DivModUnique(n - 1, n, 0, n - 1); }
    ConstantSourceRun(minimumEntropy, pool, n - 1);
  }

  /**
   * What a source will hand out decides the call: if some run of it generates
   * `expected`, then every completed call on it is that run, and a request the
   * generator does not serve fails on every source.
   */
  lemma ScriptedCall(minimumEntropy: int, pool: seq<int>, s: Schedule, expected: seq<Char16>, consumed: nat)
    requires 1 <= |pool| <= 255
    requires Servable(minimumEntropy, pool) ==>
      exists u: nat :: GeneratePasswordFrom(minimumEntropy, Some(pool), s.Take(u)) == Generated(expected, u)
    requires !GeneratePasswordFrom(minimumEntropy, Some(pool), s.Take(consumed)).Starved?
    ensures GeneratePasswordFrom(minimumEntropy, Some(pool), s.Take(consumed)).Generated? <==> Servable(minimumEntropy, pool)
    ensures GeneratePasswordFrom(minimumEntropy, Some(pool), s.Take(consumed)).Generated? ==>
      GeneratePasswordFrom(minimumEntropy, Some(pool), s.Take(consumed)).password == expected
  {
    var o := GeneratePasswordFrom(minimumEntropy, Some(pool), s.Take(consumed));
    if Servable(minimumEntropy, pool) {
      var u: nat :| GeneratePasswordFrom(minimumEntropy, Some(pool), s.Take(u)) == Generated(expected, u);
      if o.Failed? {
        FailureDrawsNothing(minimumEntropy, Some(pool), s.Take(consumed), s.Take(u));
      } else if consumed <= u {
        TakePrefix(s, consumed, u);
        GeneratedExtend(minimumEntropy, Some(pool), s.Take(consumed), s.Take(u));
      } else {
        TakePrefix(s, u, consumed);
        GeneratedExtend(minimumEntropy, Some(pool), s.Take(u), s.Take(consumed));
      }
    }
  }

  /** A run of the source that completes the call: the generated one, or any run for a failing request. */
  lemma ScriptedCallCompletes(minimumEntropy: int, pool: seq<int>, s: Schedule, expected: seq<Char16>)
    requires 1 <= |pool| <= 255
    requires Servable(minimumEntropy, pool) ==>
      exists u: nat :: GeneratePasswordFrom(minimumEntropy, Some(pool), s.Take(u)) == Generated(expected, u)
    ensures exists m: nat :: !GeneratePasswordFrom(minimumEntropy, Some(pool), s.Take(m)).Starved?
  {
    if !Servable(minimumEntropy, pool) {
      assert GeneratePasswordFrom(minimumEntropy, Some(pool), s.Take(0)).Failed?;
    }
  }

  /**
   * `FakeNumberGeneratorReturnsZero_PasswordContains_OnlyFirstCharacterFromPool`: with a
   * source that always writes 0, the password is the first pool character repeated.
   */
  method ZeroSourceRepeatsFirstCharacter(entropy: int, characterList: seq<int>) returns (r: Result<seq<Char16>, PasswordError>)
    requires 1 <= |characterList| <= 255
    ensures r.Success? <==> Servable(entropy, characterList)
    ensures r.Success? ==> r.value == Repeat(ToChar16(characterList[0]), |r.value|)
  {
    var zeroGenerator := new SingleNumberGenerator(0);
    var passwordGenerator := new PasswordGenerator(Single(zeroGenerator));
    ghost var s := Constant(0);
    ghost var expected: seq<Char16> := if |characterList| >= 2 && entropy >= 1
      then Repeat(ToChar16(characterList[0]), MinimalLength(entropy, |characterList|)) else [];
    if Servable(entropy, characterList) {
      ConstantSourceRun(entropy, characterList, 0);
    }
    ScriptedCallCompletes(entropy, characterList, s, expected);
    assert passwordGenerator.generator.Upcoming() == s;
    ghost var consumed;
    r, consumed := passwordGenerator.GeneratePassword(entropy, Some(characterList));
    ScriptedCall(entropy, characterList, s, expected, consumed);
    if r.Success? {
      assert r.value == expected && |expected| == MinimalLength(entropy, |characterList|);
    }
  }

  /**
   * `FakeNumberGeneratorReturnsLastIndexInCharacterPool_PasswordContains_OnlyLastCharacterFromPool`:
   * with a source that always writes the last index, the password is the last pool
   * character repeated.
   */
  method LastIndexSourceRepeatsLastCharacter(entropy: int, characterList: seq<int>) returns (r: Result<seq<Char16>, PasswordError>)
    requires 1 <= |characterList| <= 255
    ensures r.Success? <==> Servable(entropy, characterList)
    ensures r.Success? ==> r.value == Repeat(ToChar16(characterList[|characterList| - 1]), |r.value|)
  {
    var lastIndexGenerator := new SingleNumberGenerator(|characterList| - 1);
    var passwordGenerator := new PasswordGenerator(Single(lastIndexGenerator));
    ghost var s := Constant(|characterList| - 1);
    ghost var expected: seq<Char16> := if |characterList| >= 2 && entropy >= 1
      then Repeat(ToChar16(characterList[|characterList| - 1]), MinimalLength(entropy, |characterList|)) else [];
    if Servable(entropy, characterList) {
      LastIndexSourceRun(entropy, characterList, s);
    }
    ScriptedCallCompletes(entropy, characterList, s, expected);
    assert passwordGenerator.generator.Upcoming() == s;
    ghost var consumed;
    r, consumed := passwordGenerator.GeneratePassword(entropy, Some(characterList));
    ScriptedCall(entropy, characterList, s, expected, consumed);
    if r.Success? {
      assert r.value == expected && |expected| == MinimalLength(entropy, |characterList|);
    }
  }

  /**
   * `FakeNumberGeneratorReturnsSequenceFromZero_PasswordContains_FirstNLettersFromCharacterFromPool`:
   * with a counter from 0, the password is the pool repeated end to end, cut to length.
   */
  method IncreasingSourceCyclesPool(entropy: int, characterList: seq<int>) returns (r: Result<seq<Char16>, PasswordError>)
    requires 1 <= |characterList| <= 255
    ensures r.Success? <==> Servable(entropy, characterList)
    ensures r.Success? ==> r.value == Cycle(characterList, |r.value|)
  {
    var indexGenerator := new IncreasingSequenceNumberGenerator(0);
    var passwordGenerator := new PasswordGenerator(Increasing(indexGenerator));
    ghost var s := Counting(0);
    ghost var expected: seq<Char16> := if |characterList| >= 2 && entropy >= 1
      then Cycle(characterList, MinimalLength(entropy, |characterList|)) else [];
    if Servable(entropy, characterList) {
      IncreasingSourceRun(entropy, characterList);
    }
    ScriptedCallCompletes(entropy, characterList, s, expected);
    assert passwordGenerator.generator.Upcoming() == s;
    ghost var consumed;
    r, consumed := passwordGenerator.GeneratePassword(entropy, Some(characterList));
    ScriptedCall(entropy, characterList, s, expected, consumed);
    if r.Success? {
      assert r.value == expected && |expected| == MinimalLength(entropy, |characterList|);
    }
  }

  /**
   * `FakeNumberGeneratorReturnsSequenceFrom255_PasswordContains_LastNLettersFromCharacterFromPool`:
   * with a down-counter from the last index, the password is the reversed pool repeated
   * end to end, cut to length.
   */
  method DecreasingSourceCyclesReversedPool(entropy: int, characterList: seq<int>) returns (r: Result<seq<Char16>, PasswordError>)
    requires 1 <= |characterList| <= 255
    ensures r.Success? <==> Servable(entropy, characterList)
    ensures r.Success? ==> r.value == Cycle(Reverse(characterList), |r.value|)
  {
    var n := |characterList|;
    var indexGenerator := new DecreasingSequenceNumberGenerator(n - 1);
    var passwordGenerator := new PasswordGenerator(Decreasing(indexGenerator));
    ghost var s := CountingDown(n - 1);
    ghost var expected: seq<Char16> := if n >= 2 && entropy >= 1
      then Cycle(Reverse(characterList), MinimalLength(entropy, n)) else [];
    if Servable(entropy, characterList) {
      DecreasingSourceRun(entropy, characterList);
    }
    ScriptedCallCompletes(entropy, characterList, s, expected);
    assert passwordGenerator.generator.Upcoming() == s;
    ghost var consumed;
    r, consumed := passwordGenerator.GeneratePassword(entropy, Some(characterList));
    ScriptedCall(entropy, characterList, s, expected, consumed);
    if r.Success? {
      assert r.value == expected && |expected| == MinimalLength(entropy, |characterList|);
    }
  }
}
