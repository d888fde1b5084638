/**
 * Rejection sampling (PasswordGenerator.cs, lines 78-87), as a function of the bytes the
 * random source hands out, one per `GetBytes` call, in order. A finite sequence of those
 * bytes either contains the fair byte that ends a draw, or it runs out first (None): the
 * source would then be asked for more.
 */
module RejectionSampling {
  import opened Wrappers
  import opened Casts
  import opened Fairness

  /** One finished `GenerateRandomIndex`: the index it returns and the bytes it consumed. */
  datatype Draw = Draw(index: nat, used: nat)

  /** Several draws in a row: the indices in order and the bytes consumed by all of them. */
  datatype Draws = Draws(indices: seq<nat>, used: nat)

  /**
   * `GenerateRandomIndex(poolSize)` reading `bytes`: it consumes bytes up to and including
   * the first fair one and returns that byte modulo `poolSize`, an index in [0, poolSize).
   */
  function DrawIndex(bytes: seq<Byte>, poolSize: Byte): (r: Option<Draw>)
    requires poolSize >= 1
    ensures r.Some? ==> 1 <= r.value.used <= |bytes| && r.value.index < poolSize
  {
    if |bytes| == 0 then None
    else if IsFairRoll(bytes[0], poolSize) then Some(Draw(bytes[0] % poolSize, 1))
    else
      match DrawIndex(bytes[1..], poolSize)
      case None => None
      case Some(d) => Some(Draw(d.index, d.used + 1))
  }

  /**
   * A draw ends at the first fair byte: it fails exactly when no byte is fair, and
   * otherwise every byte before the one it stops at is rejected and that byte modulo
   * `poolSize` is the index.
   */
  lemma {:induction false} DrawIndexFirstFair(bytes: seq<Byte>, poolSize: Byte)
    requires poolSize >= 1
    ensures DrawIndex(bytes, poolSize).None? <==> forall j :: 0 <= j < |bytes| ==> !IsFairRoll(bytes[j], poolSize)
    ensures DrawIndex(bytes, poolSize).Some? ==>
      var d := DrawIndex(bytes, poolSize).value;
      && IsFairRoll(bytes[d.used - 1], poolSize)
      && (forall j :: 0 <= j < d.used - 1 ==> !IsFairRoll(bytes[j], poolSize))
      && d.index == bytes[d.used - 1] % poolSize
  {
    if |bytes| > 0 && !IsFairRoll(bytes[0], poolSize) {
      var tail := bytes[1..];
      DrawIndexFirstFair(tail, poolSize);
      assert forall j :: 1 <= j < |bytes| ==> bytes[j] == tail[j - 1];
    }
  }

  /** `count` successive draws, as the loop of `GeneratePassword` makes them (lines 66-70). */
  function DrawIndices(bytes: seq<Byte>, poolSize: Byte, count: nat): (r: Option<Draws>)
    requires count > 0 ==> poolSize >= 1
    ensures r.Some? ==>
      && |r.value.indices| == count
      && count <= r.value.used <= |bytes|
      && forall i :: 0 <= i < count ==> r.value.indices[i] < poolSize
  {
    if count == 0 then Some(Draws([], 0))
    else
      match DrawIndices(bytes, poolSize, count - 1)
      case None => None
      case Some(ds) =>
        match DrawIndex(bytes[ds.used..], poolSize)
        case None => None
        case Some(d) => Some(Draws(ds.indices + [d.index], ds.used + d.used))
  }

  /** A draw is fixed by where the first fair byte is: the bytes before it are rejected, those after it unread. */
  lemma {:induction false} DrawIndexAt(bytes: seq<Byte>, poolSize: Byte, j: nat)
    requires poolSize >= 1 && j < |bytes|
    requires IsFairRoll(bytes[j], poolSize)
    requires forall i :: 0 <= i < j ==> !IsFairRoll(bytes[i], poolSize)
    ensures DrawIndex(bytes, poolSize) == Some(Draw(bytes[j] % poolSize, j + 1))
  {
    if j > 0 {
      var tail := bytes[1..];
      assert forall i :: 0 <= i < j - 1 ==> tail[i] == bytes[i + 1];
      assert !IsFairRoll(bytes[0], poolSize);
      DrawIndexAt(tail, poolSize, j - 1);
    }
  }

  /** One more byte after bytes that are all rejected: the draw ends there exactly when that byte is fair. */
  lemma DrawIndexSnoc(bytes: seq<Byte>, b: Byte, poolSize: Byte)
    requires poolSize >= 1 && DrawIndex(bytes, poolSize).None?
    ensures DrawIndex(bytes + [b], poolSize) ==
      if IsFairRoll(b, poolSize) then Some(Draw(b % poolSize, |bytes| + 1)) else None
  {
    var more := bytes + [b];
    DrawIndexFirstFair(bytes, poolSize);
    assert forall j :: 0 <= j < |bytes| ==> more[j] == bytes[j];
    if IsFairRoll(b, poolSize) {
      DrawIndexAt(more, poolSize, |bytes|);
    } else {
      DrawIndexFirstFair(more, poolSize);
    }
  }

  /** Bytes the source hands out after a draw has ended do not change that draw. */
  lemma DrawIndexExtend(bytes: seq<Byte>, more: seq<Byte>, poolSize: Byte)
    requires poolSize >= 1 && bytes <= more
    requires DrawIndex(bytes, poolSize).Some?
    ensures DrawIndex(more, poolSize) == DrawIndex(bytes, poolSize)
  {
    var d := DrawIndex(bytes, poolSize).value;
    DrawIndexFirstFair(bytes, poolSize);
    assert forall i :: 0 <= i < d.used ==> more[i] == bytes[i];
    DrawIndexAt(more, poolSize, d.used - 1);
  }

  /** Bytes handed out after a run of draws has ended do not change those draws. */
  lemma {:induction false} DrawIndicesExtend(bytes: seq<Byte>, more: seq<Byte>, poolSize: Byte, count: nat)
    requires poolSize >= 1 && bytes <= more
    requires DrawIndices(bytes, poolSize, count).Some?
    ensures DrawIndices(more, poolSize, count) == DrawIndices(bytes, poolSize, count)
  {
    if count > 0 {
      DrawIndicesExtend(bytes, more, poolSize, count - 1);
      var ds := DrawIndices(bytes, poolSize, count - 1).value;
      DropPrefix(bytes, more, ds.used);
      DrawIndexExtend(bytes[ds.used..], more[ds.used..], poolSize);
    }
  }

  /** Dropping the same number of bytes from both keeps a prefix a prefix. */
  lemma DropPrefix(bytes: seq<Byte>, more: seq<Byte>, k: nat)
    requires bytes <= more && k <= |bytes|
    ensures bytes[k..] <= more[k..]
  {
    assert forall i :: 0 <= i < |bytes| - k ==> bytes[k..][i] == bytes[k + i] == more[k + i] == more[k..][i];
  }

  /** When one more draw succeeds after a run of draws, it reads the bytes the run left. */
  lemma DrawIndicesNext(bytes: seq<Byte>, rest: seq<Byte>, poolSize: Byte, count: nat, ds: Draws)
    requires poolSize >= 1
    requires DrawIndices(bytes, poolSize, count) == Some(ds)
    requires DrawIndices(bytes, poolSize, count + 1).Some?
    requires ds.used <= |bytes| && rest == bytes[ds.used..]
    ensures DrawIndex(rest, poolSize).Some?
  {
  }

  /** A run of draws that used up `before`, then one draw that used up `next`, is one longer run over both. */
  lemma DrawIndicesAppend(both: seq<Byte>, before: seq<Byte>, next: seq<Byte>, poolSize: Byte, count: nat, ds: Draws, d: Draw)
    requires poolSize >= 1 && both == before + next
    requires DrawIndices(before, poolSize, count) == Some(ds) && ds.used == |before|
    requires DrawIndex(next, poolSize) == Some(d)
    ensures DrawIndices(both, poolSize, count + 1) == Some(Draws(ds.indices + [d.index], ds.used + d.used))
  {
    DrawIndicesExtend(before, both, poolSize, count);
    assert both[ds.used..] == next;
  }

  /** If `count` draws succeed on some bytes, so do fewer. */
  lemma {:induction false} DrawIndicesFewer(bytes: seq<Byte>, poolSize: Byte, count: nat, fewer: nat)
    requires poolSize >= 1 && fewer <= count
    requires DrawIndices(bytes, poolSize, count).Some?
    ensures DrawIndices(bytes, poolSize, fewer).Some?
    decreases count
  {
    if fewer < count {
      DrawIndicesFewer(bytes, poolSize, count - 1, fewer);
    }
  }
}
