/**
 * The scripted random sources of the test suite (Passwords.Tests/Helpers). Each
 * overrides `GetBytes(byte[] data)` and writes only `data[0]`; each also exposes, as a
 * ghost `Upcoming()`, the schedule of bytes its future calls will write.
 */
module NumberGenerators {
  import opened Casts

  /**
   * The bytes a scripted source writes from now on, one per `GetBytes` call: a fixed
   * byte, or a byte counter that goes up (255 is followed by 0) or down (0 by 255).
   */
  datatype Schedule =
    | Constant(value: Byte)
    | Counting(next: Byte)
    | CountingDown(next: Byte)
  {
    /** The byte the next call writes. */
    function First(): Byte
    {
      match this
      case Constant(b) => b
      case Counting(b) => b
      case CountingDown(b) => b
    }

    /** The schedule left after one call. */
    function Step(): Schedule
    {
      match this
      case Constant(_) => this
      case Counting(b) => Counting(if b == ByteMaxValue then 0 else b + 1)
      case CountingDown(b) => CountingDown(if b == 0 then ByteMaxValue else b - 1)
    }

    /** The schedule left after `d` calls. */
    function Advance(d: nat): Schedule
      decreases d
    {
      if d == 0 then this else Step().Advance(d - 1)
    }

    /** The byte the k-th next call writes. */
    function ByteAt(k: nat): Byte
    {
      Advance(k).First()
    }

    /** The bytes of the next `m` calls, in order. */
    function Take(m: nat): (bytes: seq<Byte>)
      ensures |bytes| == m
      ensures forall k :: 0 <= k < m ==> bytes[k] == ByteAt(k)
    {
      seq(m, k requires 0 <= k => ByteAt(k))
    }
  }

  /** Advancing twice is advancing by the sum. */
  lemma {:induction false} AdvanceAdd(s: Schedule, d1: nat, d2: nat)
    ensures s.Advance(d1).Advance(d2) == s.Advance(d1 + d2)
    decreases d1
  {
    if d1 > 0 {
      AdvanceAdd(s.Step(), d1 - 1, d2);
    }
  }

  /** Reaching `mid` after `a` calls and then `end` after `b` more is reaching `end` after `a + b` calls. */
  lemma AdvanceThrough(s: Schedule, a: nat, mid: Schedule, b: nat, end: Schedule, total: nat)
    requires s.Advance(a) == mid && mid.Advance(b) == end && total == a + b
    ensures s.Advance(total) == end
  {
    AdvanceAdd(s, a, b);
  }

  /** One call after `d` calls is `d + 1` calls. */
  lemma AdvanceStep(s: Schedule, d: nat)
    ensures s.Advance(d).Step() == s.Advance(d + 1)
  {
    AdvanceAdd(s, d, 1);
  }

  /** After `d` calls, the k-th next byte is the one that was `d + k` calls ahead. */
  lemma ByteAtAdvance(s: Schedule, d: nat, k: nat)
    ensures s.Advance(d).ByteAt(k) == s.ByteAt(d + k)
  {
    AdvanceAdd(s, d, k);
  }

  /** The next `m + 1` bytes are the next `m` and then the one after them. */
  lemma TakeSnoc(s: Schedule, m: nat)
    ensures s.Take(m + 1) == s.Take(m) + [s.ByteAt(m)]
  {
  }

  /** The next `d + m` bytes are the next `d`, then the `m` after those. */
  lemma TakeSplit(s: Schedule, d: nat, m: nat)
    ensures s.Take(d + m) == s.Take(d) + s.Advance(d).Take(m)
  {
    var a, b := s.Take(d + m), s.Take(d) + s.Advance(d).Take(m);
    forall k | d <= k < d + m ensures a[k] == b[k] {
      ByteAtAdvance(s, d, k - d);
    }
  }

  /** The bytes after `d` calls are the tail of the bytes from now. */
  lemma TakeAdvance(s: Schedule, d: nat, m: nat)
    requires d <= m
    ensures s.Advance(d).Take(m - d) == s.Take(m)[d..]
  {
    var a, b := s.Advance(d).Take(m - d), s.Take(m)[d..];
    forall k | 0 <= k < m - d ensures a[k] == b[k] {
      ByteAtAdvance(s, d, k);
    }
  }

  /** A shorter run of upcoming bytes is a prefix of a longer one. */
  lemma TakePrefix(s: Schedule, a: nat, b: nat)
    requires a <= b
    ensures s.Take(a) <= s.Take(b)
  {
    assert s.Take(a) == s.Take(b)[..a];
  }

  /** A counter that has gone up by `k` writes its starting value plus `k`, as a byte. */
  lemma {:induction false} CountingByteAt(b: Byte, k: nat)
    ensures Counting(b).ByteAt(k) == ToByte(b + k)
    decreases k
  {
    if k > 0 {
      var s := Counting(b).Step();
      ToByteNext(b);
      CountingByteAt(s.next, k - 1);
      ToByteAdd(b + 1, k - 1);
    }
  }

  /** A counter that has gone down by `k` writes its starting value minus `k`, as a byte. */
  lemma {:induction false} CountingDownByteAt(b: Byte, k: nat)
    ensures CountingDown(b).ByteAt(k) == ToByte(b - k)
    decreases k
  {
    if k > 0 {
      var s := CountingDown(b).Step();
      ToBytePrev(b);
      CountingDownByteAt(s.next, k - 1);
      ToByteAdd(b - 1, -(k - 1));
    }
  }

  /** A constant source stays the same however many calls it has answered. */
  lemma {:induction false} ConstantAdvance(b: Byte, k: nat)
    ensures Constant(b).Advance(k) == Constant(b)
    decreases k
  {
    if k > 0 {
      ConstantAdvance(b, k - 1);
    }
  }

  /** A counter that has answered `k` calls continues from its starting value plus `k`, as a byte. */
  lemma {:induction false} CountingAdvance(b: Byte, k: nat)
    ensures Counting(b).Advance(k) == Counting(ToByte(b + k))
    decreases k
  {
    if k > 0 {
      var s := Counting(b).Step();
      ToByteNext(b);
      CountingAdvance(s.next, k - 1);
      ToByteAdd(b + 1, k - 1);
    }
  }

  /** A down-counter that has answered `k` calls continues from its starting value minus `k`, as a byte. */
  lemma {:induction false} CountingDownAdvance(b: Byte, k: nat)
    ensures CountingDown(b).Advance(k) == CountingDown(ToByte(b - k))
    decreases k
  {
    if k > 0 {
      var s := CountingDown(b).Step();
      ToBytePrev(b);
      CountingDownAdvance(s.next, k - 1);
      ToByteAdd(b - 1, -(k - 1));
    }
  }

  /** Always writes the same byte. */
  class SingleNumberGenerator {
    const number: int

    constructor (number: int)
      ensures this.number == number
    {
      this.number := number;
    }

    /** Every future call writes `(byte) number`. */
    ghost function Upcoming(): Schedule
    {
      Constant(ToByte(number))
    }

    method GetBytes(data: array<Byte>)
      requires data.Length >= 1
      modifies data
      ensures data[0] == ToByte(number)
      ensures data[1..] == old(data[1..])
    {
      data[0] := ToByte(number);
    }
  }

  /** Writes `start`, `start + 1`, ... as bytes, so 255 is followed by 0. */
  class IncreasingSequenceNumberGenerator {
    const start: int
    var callNumber: int

    constructor (start: int)
      ensures this.start == start && callNumber == 0
    {
      this.start := start;
      callNumber := 0;
    }

    /** The next call writes `(byte) (start + callNumber)`, and each later one a byte more. */
    ghost function Upcoming(): Schedule
      reads this
    {
      Counting(ToByte(start + callNumber))
    }

    method GetBytes(data: array<Byte>)
      requires data.Length >= 1
      modifies this, data
      ensures data[0] == ToByte(start + old(callNumber))
      ensures callNumber == old(callNumber) + 1
      ensures data[1..] == old(data[1..])
    {
      data[0] := ToByte(start + callNumber);
      callNumber := callNumber + 1;
    }
  }

  /** Writes `start`, `start - 1`, ... as bytes, so 0 is followed by 255. */
  class DecreasingSequenceNumberGenerator {
    const start: int
    var callNumber: int

    constructor (start: int)
      ensures this.start == start && callNumber == 0
    {
      this.start := start;
      callNumber := 0;
    }

    /** The next call writes `(byte) (start - callNumber)`, and each later one a byte less. */
    ghost function Upcoming(): Schedule
      reads this
    {
      CountingDown(ToByte(start - callNumber))
    }

    method GetBytes(data: array<Byte>)
      requires data.Length >= 1
      modifies this, data
      ensures data[0] == ToByte(start - old(callNumber))
      ensures callNumber == old(callNumber) + 1
      ensures data[1..] == old(data[1..])
    {
      data[0] := ToByte(start - callNumber);
      callNumber := callNumber + 1;
    }
  }

  /**
   * The random sources a `PasswordGenerator` can be given: the framework's abstract
   * `RandomNumberGenerator`, closed over the three implementations modelled here.
   */
  datatype RandomNumberGenerator =
    | Single(single: SingleNumberGenerator)
    | Increasing(increasing: IncreasingSequenceNumberGenerator)
    | Decreasing(decreasing: DecreasingSequenceNumberGenerator)
  {
    /** The object whose state the source keeps. */
    function Object(): object
    {
      match this
      case Single(g) => g
      case Increasing(g) => g
      case Decreasing(g) => g
    }

    /** The bytes the source's future `GetBytes` calls write. */
    ghost function Upcoming(): Schedule
      reads Object()
    {
      match this
      case Single(g) => g.Upcoming()
      case Increasing(g) => g.Upcoming()
      case Decreasing(g) => g.Upcoming()
    }

    /** One call hands out the first scheduled byte and leaves the rest for later calls. */
    method GetBytes(data: array<Byte>)
      requires data.Length >= 1
      modifies Object(), data
      ensures data[0] == old(Upcoming()).First()
      ensures Upcoming() == old(Upcoming()).Step()
      ensures data[1..] == old(data[1..])
    {
      match this
      case Single(g) => g.GetBytes(data);
      case Increasing(g) =>
        ghost var before := g.start + g.callNumber;
        g.GetBytes(data);
        ToByteNext(before);
      case Decreasing(g) =>
        ghost var before := g.start - g.callNumber;
        g.GetBytes(data);
        ToBytePrev(before);
    }
  }
}
