/**
 * The draws of rejection sampling read through the fair bytes (those `IsFairRoll`
 * accepts) of what the random source hands out: a run of `count` draws succeeds exactly
 * when `count` fair bytes arrive, and each index is one fair byte modulo the pool size.
 * The source computes no such list; it states what the loop in `GenerateRandomIndex`
 * (PasswordGenerator.cs, lines 78-87) does over many calls.
 */
module FairDraws {
  import opened Wrappers
  import opened Casts
  import opened Fairness
  import opened RejectionSampling

  /** The byte `b` alone when `IsFairRoll` accepts it, nothing otherwise. */
  function KeptIfFair(b: Byte, poolSize: Byte): (kept: seq<Byte>)
    requires poolSize >= 1
    ensures kept == [b] || kept == []
  {
    if IsFairRoll(b, poolSize) then [b] else []
  }

  /** The bytes of `bytes` that `IsFairRoll` accepts, in order. */
  function FairBytes(bytes: seq<Byte>, poolSize: Byte): (fair: seq<Byte>)
    requires poolSize >= 1
    ensures |fair| <= |bytes|
  {
    if |bytes| == 0 then [] else KeptIfFair(bytes[0], poolSize) + FairBytes(bytes[1..], poolSize)
  }

  /** Every byte `FairBytes` keeps is one `IsFairRoll` accepts, and every byte it drops is one it rejects. */
  lemma {:induction false} FairBytesAreFair(bytes: seq<Byte>, poolSize: Byte)
    requires poolSize >= 1
    ensures forall b :: b in FairBytes(bytes, poolSize) <==> b in bytes && IsFairRoll(b, poolSize)
  {
    if |bytes| > 0 {
      FairBytesAreFair(bytes[1..], poolSize);
      assert bytes == [bytes[0]] + bytes[1..];
    }
  }

  /** The fair bytes of two stretches of bytes, one after the other, are those of each in turn. */
  lemma {:induction false} FairBytesAppend(a: seq<Byte>, b: seq<Byte>, poolSize: Byte)
    requires poolSize >= 1
    ensures FairBytes(a + b, poolSize) == FairBytes(a, poolSize) + FairBytes(b, poolSize)
  {
    if |a| == 0 {
      assert a + b == b;
    } else {
      var kept := KeptIfFair(a[0], poolSize);
      assert (a + b)[0] == a[0] && (a + b)[1..] == a[1..] + b;
      FairBytesAppend(a[1..], b, poolSize);
      calc {
        FairBytes(a + b, poolSize);
        kept + FairBytes(a[1..] + b, poolSize);
        kept + (FairBytes(a[1..], poolSize) + FairBytes(b, poolSize));
        (kept + FairBytes(a[1..], poolSize)) + FairBytes(b, poolSize);
      }
    }
  }

  /**
   * A draw ends on the first fair byte: it fails exactly when there is none, and
   * otherwise that byte is the only fair one among the bytes it reads.
   */
  lemma {:induction false} DrawIndexFair(bytes: seq<Byte>, poolSize: Byte)
    requires poolSize >= 1
    ensures DrawIndex(bytes, poolSize).None? <==> FairBytes(bytes, poolSize) == []
    ensures DrawIndex(bytes, poolSize).Some? ==>
      var d := DrawIndex(bytes, poolSize).value;
      && FairBytes(bytes[..d.used], poolSize) == [bytes[d.used - 1]]
      && d.index == bytes[d.used - 1] % poolSize
  {
    if |bytes| > 0 {
      var tail := bytes[1..];
      DrawIndexFair(tail, poolSize);
      if IsFairRoll(bytes[0], poolSize) {
        assert bytes[..1][1..] == [];
      } else if DrawIndex(tail, poolSize).Some? {
        var d := DrawIndex(tail, poolSize).value;
        assert bytes[..d.used + 1][1..] == tail[..d.used];
      }
    }
  }

  /** A sequence is its first `k` elements followed by the rest. */
  lemma SplitAt<T>(s: seq<T>, k: nat)
    requires k <= |s|
    ensures s == s[..k] + s[k..]
  {
  }

  /** The first `k + m` elements are the first `k` followed by the next `m`. */
  lemma TakeAfter<T>(s: seq<T>, k: nat, m: nat)
    requires k + m <= |s|
    ensures s[..k + m] == s[..k] + s[k..][..m]
  {
  }

  /**
   * Where a draw on the bytes left after `used` succeeds, the fair bytes split into
   * those before `used`, the byte the draw stops at, and those after it.
   */
  lemma FairBytesAroundDraw(bytes: seq<Byte>, poolSize: Byte, used: nat, d: Draw)
    requires poolSize >= 1 && used <= |bytes|
    requires DrawIndex(bytes[used..], poolSize) == Some(d)
    ensures used + d.used <= |bytes|
    ensures FairBytes(bytes[..used + d.used], poolSize) == FairBytes(bytes[..used], poolSize) + [bytes[used + d.used - 1]]
    ensures FairBytes(bytes, poolSize) == FairBytes(bytes[..used + d.used], poolSize) + FairBytes(bytes[used + d.used..], poolSize)
    ensures d.index == bytes[used + d.used - 1] % poolSize
  {
    var rest := bytes[used..];
    DrawIndexFair(rest, poolSize);
    TakeAfter(bytes, used, d.used);
    FairBytesAppend(bytes[..used], rest[..d.used], poolSize);
    SplitAt(bytes, used + d.used);
    FairBytesAppend(bytes[..used + d.used], bytes[used + d.used..], poolSize);
  }

  /** Where a draw on the bytes left after `used` fails, no fair byte lies past `used`. */
  lemma FairBytesBeforeFailedDraw(bytes: seq<Byte>, poolSize: Byte, used: nat)
    requires poolSize >= 1 && used <= |bytes|
    requires DrawIndex(bytes[used..], poolSize).None?
    ensures FairBytes(bytes, poolSize) == FairBytes(bytes[..used], poolSize)
  {
    DrawIndexFair(bytes[used..], poolSize);
    SplitAt(bytes, used);
    FairBytesAppend(bytes[..used], bytes[used..], poolSize);
  }

  /** A sequence made of `p`, then `x`, then more, starts with `p + [x]` and holds `x` right after `p`. */
  lemma PrefixStep<T>(s: seq<T>, p: seq<T>, x: T, rest: seq<T>, k: nat)
    requires s == (p + [x]) + rest && |p| == k
    ensures s[..k + 1] == p + [x] && s[k] == x
  {
  }

  /**
   * One more successful draw, after bytes holding exactly the first `count` fair bytes:
   * it reads the next fair byte and takes its index from it.
   */
  lemma FairBytesNextDraw(bytes: seq<Byte>, poolSize: Byte, count: nat, used: nat, d: Draw)
    requires poolSize >= 1 && used <= |bytes| && 1 <= count <= |FairBytes(bytes, poolSize)| + 1
    requires FairBytes(bytes[..used], poolSize) == FairBytes(bytes, poolSize)[..count - 1]
    requires DrawIndex(bytes[used..], poolSize) == Some(d)
    ensures count <= |FairBytes(bytes, poolSize)|
    ensures d.index == FairBytes(bytes, poolSize)[count - 1] % poolSize
    ensures FairBytes(bytes[..used + d.used], poolSize) == FairBytes(bytes, poolSize)[..count]
  {
    var fair := FairBytes(bytes, poolSize);
    var before := FairBytes(bytes[..used], poolSize);
    FairBytesAroundDraw(bytes, poolSize, used, d);
    assert |before| == count - 1;
    PrefixStep(fair, before, bytes[used + d.used - 1], FairBytes(bytes[used + d.used..], poolSize), count - 1);
  }

  /** One more draw after a successful run of `count - 1` draws extends the run by the index it draws. */
  lemma DrawIndicesOneMore(bytes: seq<Byte>, poolSize: Byte, count: nat, ds: Draws, d: Draw)
    requires poolSize >= 1 && count >= 1
    requires DrawIndices(bytes, poolSize, count - 1) == Some(ds)
    requires DrawIndex(bytes[ds.used..], poolSize) == Some(d)
    ensures DrawIndices(bytes, poolSize, count) == Some(Draws(ds.indices + [d.index], ds.used + d.used))
  {
  }

  /** Indices that are the first fair bytes modulo `poolSize`, and the residue of the next one. */
  lemma ResiduesSnoc(indices: seq<nat>, fair: seq<Byte>, poolSize: Byte, count: nat)
    requires poolSize >= 1 && count >= 1 && |indices| == count - 1 && count <= |fair|
    requires forall i :: 0 <= i < count - 1 ==> indices[i] == fair[i] % poolSize
    ensures forall i :: 0 <= i < count ==> (indices + [fair[count - 1] % poolSize])[i] == fair[i] % poolSize
  {
  }

  /**
   * A run of `count - 1` draws that read the first `count - 1` fair bytes, each index the
   * residue of its fair byte, and one more successful draw: the longer run does the same.
   */
  lemma DrawIndicesFairStep(bytes: seq<Byte>, poolSize: Byte, count: nat, ds: Draws, d: Draw)
    requires poolSize >= 1 && 1 <= count <= |FairBytes(bytes, poolSize)| + 1
    requires DrawIndices(bytes, poolSize, count - 1) == Some(ds)
    requires FairBytes(bytes[..ds.used], poolSize) == FairBytes(bytes, poolSize)[..count - 1]
    requires forall i :: 0 <= i < count - 1 ==> ds.indices[i] == FairBytes(bytes, poolSize)[i] % poolSize
    requires DrawIndex(bytes[ds.used..], poolSize) == Some(d)
    ensures DrawIndices(bytes, poolSize, count).Some? && count <= |FairBytes(bytes, poolSize)|
    ensures FairBytes(bytes[..DrawIndices(bytes, poolSize, count).value.used], poolSize) == FairBytes(bytes, poolSize)[..count]
    ensures forall i :: 0 <= i < count ==>
      DrawIndices(bytes, poolSize, count).value.indices[i] == FairBytes(bytes, poolSize)[i] % poolSize
  {
    FairBytesNextDraw(bytes, poolSize, count, ds.used, d);
    DrawIndicesOneMore(bytes, poolSize, count, ds, d);
    var next := DrawIndices(bytes, poolSize, count).value;
    assert bytes[..next.used] == bytes[..ds.used + d.used];
    ResiduesSnoc(ds.indices, FairBytes(bytes, poolSize), poolSize, count);
  }

  /**
   * `count` draws in a row succeed exactly when the bytes hold `count` fair bytes; the
   * `i`-th index is then the `i`-th fair byte modulo `poolSize`, and the bytes the draws
   * read hold exactly the first `count` fair bytes.
   */
  lemma {:induction false} DrawIndicesFair(bytes: seq<Byte>, poolSize: Byte, count: nat)
    requires poolSize >= 1
    ensures DrawIndices(bytes, poolSize, count).Some? <==> count <= |FairBytes(bytes, poolSize)|
    ensures DrawIndices(bytes, poolSize, count).Some? ==>
      && FairBytes(bytes[..DrawIndices(bytes, poolSize, count).value.used], poolSize) == FairBytes(bytes, poolSize)[..count]
      && forall i :: 0 <= i < count ==>
           DrawIndices(bytes, poolSize, count).value.indices[i] == FairBytes(bytes, poolSize)[i] % poolSize
  {
    if count == 0 {
      assert DrawIndices(bytes, poolSize, 0) == Some(Draws([], 0));
      assert bytes[..0] == [] && FairBytes(bytes, poolSize)[..0] == [];
      assert FairBytes(bytes[..0], poolSize) == [];
    } else {
      DrawIndicesFair(bytes, poolSize, count - 1);
      if DrawIndices(bytes, poolSize, count - 1).Some? {
        var ds := DrawIndices(bytes, poolSize, count - 1).value;
        if DrawIndex(bytes[ds.used..], poolSize).Some? {
          DrawIndicesFairStep(bytes, poolSize, count, ds, DrawIndex(bytes[ds.used..], poolSize).value);
        } else {
          FairBytesBeforeFailedDraw(bytes, poolSize, ds.used);
          assert DrawIndices(bytes, poolSize, count).None?;
        }
      } else {
        assert DrawIndices(bytes, poolSize, count).None?;
      }
    }
  }
}
