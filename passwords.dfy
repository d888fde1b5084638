/**
 * `PasswordGenerator` (Passwords/PasswordGenerator.cs): validates the request, computes
 * the password length from the entropy target and the pool size, and fills the password
 * position by position with pool characters chosen by rejection sampling.
 */
module Passwords {
  import opened Wrappers
  import opened Casts
  import opened Pools
  import opened Fairness
  import opened PasswordLength
  import opened RejectionSampling
  import opened FairDraws
  import opened NumberGenerators
  import opened ScheduledDraws

  /** The exceptions `GeneratePassword` throws. */
  datatype PasswordError =
    | EntropyOutOfRange  // ArgumentOutOfRangeException: minimumEntropy < 1
    | PoolMissing        // ArgumentNullException: characterPool is null
    | LengthOverflow     // OverflowException of Convert.ToInt32: a one-element pool
    | PasswordTooLong    // ArgumentException: the computed length is over 256

  /** The longest password the generator produces. */
  const MaxPasswordLength := 256

  /**
   * What `GeneratePassword` does given the bytes its source hands out: a password and
   * the number of bytes it consumed, an exception, or `Starved` when the bytes given
   * end before the password is complete.
   */
  datatype Outcome =
    | Generated(password: seq<Char16>, used: nat)
    | Failed(error: PasswordError)
    | Starved

  /**
   * The password the loop writes for the drawn indices: each draw appends
   * `(char) characterList[index]`. Position `i` holds the character of the `i`-th draw.
   */
  function PickCharacters(pool: seq<int>, indices: seq<nat>): (password: seq<Char16>)
    requires forall i :: 0 <= i < |indices| ==> indices[i] < |pool|
    ensures |password| == |indices|
    ensures forall i :: 0 <= i < |indices| ==> password[i] == ToChar16(pool[indices[i]])
  {
    if |indices| == 0 then []
    else PickCharacters(pool, indices[..|indices| - 1]) + [ToChar16(pool[indices[|indices| - 1]])]
  }

  /** One more drawn index adds its character at the end. */
  lemma PickCharactersSnoc(pool: seq<int>, indices: seq<nat>, index: nat)
    requires forall i :: 0 <= i < |indices| ==> indices[i] < |pool|
    requires index < |pool|
    ensures PickCharacters(pool, indices + [index]) == PickCharacters(pool, indices) + [ToChar16(pool[index])]
  {
    assert (indices + [index])[..|indices|] == indices;
  }

  /** `characterPool` holds a pool the model covers (null, or at most 255 code points). */
  predicate PoolInScope(characterPool: Option<seq<int>>)
  {
    characterPool.Some? ==> |characterPool.value| <= 255
  }

  /**
   * `GeneratePassword(minimumEntropy, characterPool)` run against a source that hands
   * out `bytes`. The arguments are checked in the source's order: the entropy first,
   * then the pool, then the computed length; a password is as long as the minimal
   * length and made of pool characters.
   */
  function GeneratePasswordFrom(minimumEntropy: int, characterPool: Option<seq<int>>, bytes: seq<Byte>): (o: Outcome)
    requires PoolInScope(characterPool)
    ensures o == Failed(EntropyOutOfRange) <==> minimumEntropy < 1
    ensures o == Failed(PoolMissing) <==> minimumEntropy >= 1 && characterPool.None?
    ensures o == Failed(PasswordTooLong) <==>
      minimumEntropy >= 1 && characterPool.Some? && |characterPool.value| >= 2 &&
      MinimalLength(minimumEntropy, |characterPool.value|) > MaxPasswordLength
    ensures o == Failed(LengthOverflow) <==>
      minimumEntropy >= 1 && characterPool.Some? && |characterPool.value| == 1
    ensures minimumEntropy >= 1 && characterPool == Some([]) ==> o == Generated([], 0)
    ensures o.Generated? ==> characterPool.Some? && o.used <= |bytes|
    ensures o.Failed? <==>
      || minimumEntropy < 1
      || characterPool.None?
      || |characterPool.value| == 1
      || (|characterPool.value| >= 2 && MinimalLength(minimumEntropy, |characterPool.value|) > MaxPasswordLength)
  {
    if minimumEntropy < 1 then Failed(EntropyOutOfRange)
    else if characterPool.None? then Failed(PoolMissing)
    else
      var characterList := characterPool.value;
      var poolCount := |characterList|;
      match ComputePasswordLength(minimumEntropy, poolCount)
      case None => Failed(LengthOverflow)
      case Some(passwordLength) =>
        if passwordLength > MaxPasswordLength then Failed(PasswordTooLong)
        else
          match DrawIndices(bytes, poolCount, passwordLength)
          case None => Starved
          case Some(ds) => Generated(PickCharacters(characterList, ds.indices), ds.used)
  }

  /** The characters `(char) x` of the members `x` of a pool. */
  ghost function PoolCharacters(pool: seq<int>): set<Char16>
  {
    set x | x in pool :: ToChar16(x)
  }

  /**
   * A generated password has the minimal length that reaches the entropy target (empty
   * for an empty pool), at most 256 characters, each one a character of the pool.
   */
  lemma GeneratedPassword(minimumEntropy: int, characterPool: Option<seq<int>>, bytes: seq<Byte>)
    requires PoolInScope(characterPool)
    requires GeneratePasswordFrom(minimumEntropy, characterPool, bytes).Generated?
    ensures minimumEntropy >= 1 && characterPool.Some?
    ensures var password := GeneratePasswordFrom(minimumEntropy, characterPool, bytes).password;
      && |password| <= MaxPasswordLength
      && (|characterPool.value| >= 2 ==> IsMinimalLength(minimumEntropy, |characterPool.value|, |password|))
      && (|characterPool.value| == 0 ==> password == [])
      && forall c :: c in password ==> c in PoolCharacters(characterPool.value)
  {
    var pool := characterPool.value;
    var L := ComputePasswordLength(minimumEntropy, |pool|).value;
    var ds := DrawIndices(bytes, |pool|, L).value;
    var password := PickCharacters(pool, ds.indices);
    forall c | c in password ensures c in PoolCharacters(pool) {
      var i :| 0 <= i < |password| && password[i] == c;
      assert pool[ds.indices[i]] in pool;
    }
  }

  /** Every exception is raised before any byte is drawn, whatever the source would hand out. */
  lemma FailureDrawsNothing(minimumEntropy: int, characterPool: Option<seq<int>>, bytes: seq<Byte>, other: seq<Byte>)
    requires PoolInScope(characterPool)
    requires GeneratePasswordFrom(minimumEntropy, characterPool, bytes).Failed?
    ensures GeneratePasswordFrom(minimumEntropy, characterPool, other) == GeneratePasswordFrom(minimumEntropy, characterPool, bytes)
  {
  }

  /** Bytes handed out after the password is complete do not change it. */
  lemma GeneratedExtend(minimumEntropy: int, characterPool: Option<seq<int>>, bytes: seq<Byte>, more: seq<Byte>)
    requires PoolInScope(characterPool) && bytes <= more
    requires GeneratePasswordFrom(minimumEntropy, characterPool, bytes).Generated?
    ensures GeneratePasswordFrom(minimumEntropy, characterPool, more) == GeneratePasswordFrom(minimumEntropy, characterPool, bytes)
  {
    var n := |characterPool.value|;
    if n >= 2 {
      var L := ComputePasswordLength(minimumEntropy, n).value;
      DrawIndicesExtend(bytes, more, n, L);
    }
  }

  /**
   * A valid request over a pool of two or more characters never fails once the length
   * fits: the password is complete exactly when the bytes hold as many fair bytes as it
   * has characters, and its `i`-th character is the pool character at the `i`-th fair
   * byte modulo the pool size; short of that many fair bytes the source is asked for more.
   */
  lemma ServedExactly(minimumEntropy: int, pool: seq<int>, bytes: seq<Byte>)
    requires minimumEntropy >= 1 && 2 <= |pool| <= 255
    ensures var o := GeneratePasswordFrom(minimumEntropy, Some(pool), bytes);
      var length := MinimalLength(minimumEntropy, |pool|);
      var fair := FairBytes(bytes, |pool|);
      && (o.Generated? <==> length <= MaxPasswordLength && length <= |fair|)
      && (o.Starved? <==> length <= MaxPasswordLength && |fair| < length)
      && (o.Generated? ==>
            && |o.password| == length
            && forall i :: 0 <= i < length ==> o.password[i] == ToChar16(pool[fair[i] % |pool|]))
  {
    var length := MinimalLength(minimumEntropy, |pool|);
    assert ComputePasswordLength(minimumEntropy, |pool|) == Some(length);
    if length <= MaxPasswordLength {
      DrawIndicesFair(bytes, |pool|, length);
    }
  }

  /**
   * The ten digits are the pool of the test suite's length-cap case: 850 bits give a
   * password of exactly 256 digits, 851 bits are rejected.
   */
  lemma DigitsAtLengthCap(bytes: seq<Byte>)
    ensures GeneratePasswordFrom(851, Some(Numbers()), bytes) == Failed(PasswordTooLong)
    ensures GeneratePasswordFrom(850, Some(Numbers()), bytes).Generated? ==>
      |GeneratePasswordFrom(850, Some(Numbers()), bytes).password| == MaxPasswordLength
    ensures !GeneratePasswordFrom(850, Some(Numbers()), bytes).Failed?
  {
    AlphanumericsLayout();
    DigitsLengthBoundary();
  }

  class PasswordGenerator {
    /** The random source, fixed at construction. */
    const generator: RandomNumberGenerator

    constructor (generator: RandomNumberGenerator)
      ensures this.generator == generator
    {
      this.generator := generator;
    }

    /** `GenerateAlphanumericPassword`: `GeneratePassword` with the default pool. */
    method GenerateAlphanumericPassword(minimumEntropy: int) returns (r: Result<seq<Char16>, PasswordError>, ghost consumed: nat)
      requires exists m: nat :: !GeneratePasswordFrom(minimumEntropy, Some(Alphanumerics()), generator.Upcoming().Take(m)).Starved?
      modifies generator.Object()
      ensures GeneratePasswordFrom(minimumEntropy, Some(Alphanumerics()), old(generator.Upcoming()).Take(consumed)) ==
        if r.Success? then Generated(r.value, consumed) else Failed(r.error)
      ensures generator.Upcoming() == old(generator.Upcoming()).Advance(consumed)
      ensures r.Failure? ==> consumed == 0 && unchanged(generator.Object())
    {
      r, consumed := GeneratePassword(minimumEntropy, Some(Alphanumerics()));
    }

    /**
     * `GeneratePassword`: the result is what GeneratePasswordFrom gives for the bytes
     * the call drew, and the source has moved past exactly those bytes. An exception
     * leaves the source untouched.
     */
    method GeneratePassword(minimumEntropy: int, characterPool: Option<seq<int>>)
      returns (r: Result<seq<Char16>, PasswordError>, ghost consumed: nat)
      requires PoolInScope(characterPool)
      requires exists m: nat :: !GeneratePasswordFrom(minimumEntropy, characterPool, generator.Upcoming().Take(m)).Starved?
      modifies generator.Object()
      ensures GeneratePasswordFrom(minimumEntropy, characterPool, old(generator.Upcoming()).Take(consumed)) ==
        if r.Success? then Generated(r.value, consumed) else Failed(r.error)
      ensures generator.Upcoming() == old(generator.Upcoming()).Advance(consumed)
      ensures r.Failure? ==> consumed == 0 && unchanged(generator.Object())
    {
      if minimumEntropy < 1 {
        return Failure(EntropyOutOfRange), 0;
      }
      if characterPool.None? {
        return Failure(PoolMissing), 0;
      }
      var characterList := characterPool.value;
      var poolCount := |characterList|;
      var length := ComputePasswordLength(minimumEntropy, poolCount);
      if length.None? {
        return Failure(LengthOverflow), 0;
      }
      var passwordLength := length.value;
      if passwordLength > MaxPasswordLength {
        return Failure(PasswordTooLong), 0;
      }

      var password, ds := FillPassword(characterList, passwordLength);
      consumed := ds.used;
      r := Success(password);
    }

    /**
     * The loop of `GeneratePassword` (lines 65-72): one character of the pool per
     * position, at the index the next draw returns. The password holds the pool
     * characters at the indices DrawIndices reads off the bytes consumed.
     */
    method FillPassword(characterList: seq<int>, passwordLength: nat) returns (password: seq<Char16>, ghost ds: Draws)
      requires |characterList| <= 255 && (passwordLength > 0 ==> |characterList| >= 1)
      requires exists m: nat :: DrawIndices(generator.Upcoming().Take(m), |characterList|, passwordLength).Some?
      modifies generator.Object()
      ensures DrawIndices(old(generator.Upcoming()).Take(ds.used), |characterList|, passwordLength) == Some(ds)
      ensures generator.Upcoming() == old(generator.Upcoming()).Advance(ds.used)
      ensures password == PickCharacters(characterList, ds.indices)
    {
      var poolCount := |characterList|;
      ghost var s0 := generator.Upcoming();
      ghost var m: nat :| DrawIndices(s0.Take(m), poolCount, passwordLength).Some?;
      password := [];
      ds := Draws([], 0);
      for i := 0 to passwordLength
        invariant DrawIndices(s0.Take(ds.used), poolCount, i) == Some(ds)
        invariant ds.used <= m && |ds.indices| == i
        invariant generator.Upcoming() == s0.Advance(ds.used)
        invariant password == PickCharacters(characterList, ds.indices)
      {
        FairByteForNextDraw(s0, poolCount, m, passwordLength, i, ds);
        var randomIndex, used := GenerateRandomIndex(poolCount);
        ghost var next := Draws(ds.indices + [randomIndex], ds.used + used);
        NextDrawTaken(s0, poolCount, m, passwordLength, i, ds, Draw(randomIndex, used), next);
        AdvancePastDraw(s0, ds, Draw(randomIndex, used), next);
        PickCharactersSnoc(characterList, ds.indices, randomIndex);
        password := password + [ToChar16(characterList[randomIndex])];
        ds := next;
      }
    }

    /**
     * `GenerateRandomIndex`: draws single bytes until a fair one comes, and returns it
     * modulo `poolSize`; the draw it makes is DrawIndex of the bytes it consumed.
     */
    method GenerateRandomIndex(poolSize: int) returns (index: nat, ghost used: nat)
      requires 1 <= poolSize <= 255
      requires exists j: nat :: IsFairRoll(generator.Upcoming().ByteAt(j), poolSize)
      modifies generator.Object()
      ensures index < poolSize
      ensures DrawIndex(old(generator.Upcoming()).Take(used), poolSize) == Some(Draw(index, used))
      ensures generator.Upcoming() == old(generator.Upcoming()).Advance(used)
    {
      ghost var s0 := generator.Upcoming();
      ghost var stop: nat :| IsFairRoll(s0.ByteAt(stop), poolSize);

      var randomNumber := new Byte[1];
      used := 0;
      var fair := false;
      while !fair
        invariant generator.Upcoming() == s0.Advance(used)
        invariant DrawIndex(s0.Take(used), poolSize) ==
          if fair then Some(Draw(randomNumber[0] % poolSize, used)) else None
        invariant !fair ==> used <= stop
        decreases stop + 1 - used
      {
        DrawIndexSnoc(s0.Take(used), s0.ByteAt(used), poolSize);
        TakeSnoc(s0, used);
        generator.GetBytes(randomNumber);
        AdvanceStep(s0, used);
        assert randomNumber[0] == s0.ByteAt(used);
        used := used + 1;
        fair := IsFairRoll(randomNumber[0], poolSize);
        if !fair {
          RejectedSoFar(s0, poolSize, used);
        }
      }
      index := randomNumber[0] % poolSize;
    }
  }
}
