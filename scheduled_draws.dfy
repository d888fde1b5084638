/**
 * Draws read off a scripted source: how the byte-level sampler of RejectionSampling
 * meets the schedule of bytes a source hands out, one `GetBytes` call at a time. These
 * lemmas are proof glue between the two models and have no counterpart in the source.
 */
module ScheduledDraws {
  import opened Wrappers
  import opened Casts
  import opened Fairness
  import opened RejectionSampling
  import opened NumberGenerators

  /** While a draw has not ended, every byte the source handed out to it was rejected. */
  lemma RejectedSoFar(s: Schedule, poolSize: Byte, used: nat)
    requires poolSize >= 1 && DrawIndex(s.Take(used), poolSize).None?
    ensures forall j :: 0 <= j < used ==> !IsFairRoll(s.ByteAt(j), poolSize)
  {
    DrawIndexFirstFair(s.Take(used), poolSize);
    forall j | 0 <= j < used ensures !IsFairRoll(s.ByteAt(j), poolSize) {
      assert s.Take(used)[j] == s.ByteAt(j);
    }
  }

  /** A draw that ends within the next `k` bytes finds a fair byte among them. */
  lemma FairByteAhead(s: Schedule, poolSize: Byte, k: nat)
    requires poolSize >= 1 && DrawIndex(s.Take(k), poolSize).Some?
    ensures exists j: nat :: IsFairRoll(s.ByteAt(j), poolSize)
  {
    var bytes := s.Take(k);
    var d := DrawIndex(bytes, poolSize).value;
    DrawIndexFirstFair(bytes, poolSize);
    assert bytes[d.used - 1] == s.ByteAt(d.used - 1);
  }

  /** Two runs of the same source in which a draw ends give the same draw. */
  lemma DrawIndexOnSchedule(s: Schedule, poolSize: Byte, a: nat, b: nat)
    requires poolSize >= 1
    requires DrawIndex(s.Take(a), poolSize).Some? && DrawIndex(s.Take(b), poolSize).Some?
    ensures DrawIndex(s.Take(a), poolSize) == DrawIndex(s.Take(b), poolSize)
  {
    if a <= b {
      TakePrefix(s, a, b);
      DrawIndexExtend(s.Take(a), s.Take(b), poolSize);
    } else {
      TakePrefix(s, b, a);
      DrawIndexExtend(s.Take(b), s.Take(a), poolSize);
    }
  }

  /**
   * If `count` draws end within the first `m` bytes of a source, then after `i < count`
   * of them the next draw ends within the bytes still left of those `m`.
   */
  lemma NextDrawWindow(s: Schedule, poolSize: Byte, m: nat, count: nat, i: nat, ds: Draws)
    requires poolSize >= 1 && i < count && ds.used <= m
    requires DrawIndices(s.Take(m), poolSize, count).Some?
    requires DrawIndices(s.Take(ds.used), poolSize, i) == Some(ds)
    ensures DrawIndex(s.Advance(ds.used).Take(m - ds.used), poolSize).Some?
  {
    var enough := s.Take(m);
    assert DrawIndices(enough, poolSize, i) == Some(ds) by {
      TakePrefix(s, ds.used, m);
      DrawIndicesExtend(s.Take(ds.used), enough, poolSize, i);
    }
    DrawIndicesFewer(enough, poolSize, count, i + 1);
    TakeAdvance(s, ds.used, m);
    DrawIndicesNext(enough, s.Advance(ds.used).Take(m - ds.used), poolSize, i, ds);
  }

  /** One more draw, read from where the earlier draws left the source, extends the run of draws. */
  lemma DrawIndicesThenDraw(s: Schedule, poolSize: Byte, i: nat, ds: Draws, d: Draw, next: Draws)
    requires poolSize >= 1
    requires DrawIndices(s.Take(ds.used), poolSize, i) == Some(ds)
    requires DrawIndex(s.Advance(ds.used).Take(d.used), poolSize) == Some(d)
    requires next == Draws(ds.indices + [d.index], ds.used + d.used)
    ensures DrawIndices(s.Take(next.used), poolSize, i + 1) == Some(next)
  {
    TakeSplit(s, ds.used, d.used);
    DrawIndicesAppend(s.Take(next.used), s.Take(ds.used), s.Advance(ds.used).Take(d.used), poolSize, i, ds, d);
  }

  /**
   * Before draw `i` of `count` draws that end within the first `m` bytes: the source,
   * moved past the earlier draws, has a fair byte ahead.
   */
  lemma FairByteForNextDraw(s: Schedule, poolSize: Byte, m: nat, count: nat, i: nat, ds: Draws)
    requires poolSize >= 1 && i < count && ds.used <= m
    requires DrawIndices(s.Take(m), poolSize, count).Some?
    requires DrawIndices(s.Take(ds.used), poolSize, i) == Some(ds)
    ensures exists j: nat :: IsFairRoll(s.Advance(ds.used).ByteAt(j), poolSize)
  {
    NextDrawWindow(s, poolSize, m, count, i, ds);
    FairByteAhead(s.Advance(ds.used), poolSize, m - ds.used);
  }

  /**
   * After draw `i` of `count` draws that end within the first `m` bytes: the draws so far,
   * then the draw `d` read from where they left the source, are the run `next` of `i + 1`
   * draws, which stays within the `m` bytes.
   */
  lemma NextDrawTaken(s: Schedule, poolSize: Byte, m: nat, count: nat, i: nat, ds: Draws, d: Draw, next: Draws)
    requires poolSize >= 1 && i < count && ds.used <= m
    requires DrawIndices(s.Take(m), poolSize, count).Some?
    requires DrawIndices(s.Take(ds.used), poolSize, i) == Some(ds)
    requires DrawIndex(s.Advance(ds.used).Take(d.used), poolSize) == Some(d)
    requires next == Draws(ds.indices + [d.index], ds.used + d.used)
    ensures DrawIndices(s.Take(next.used), poolSize, i + 1) == Some(next)
    ensures next.used <= m && |next.indices| == i + 1
  {
    assert DrawIndex(s.Advance(ds.used).Take(m - ds.used), poolSize) == Some(d) by {
      NextDrawWindow(s, poolSize, m, count, i, ds);
      DrawIndexOnSchedule(s.Advance(ds.used), poolSize, d.used, m - ds.used);
    }
    DrawIndicesThenDraw(s, poolSize, i, ds, d, next);
  }

  /** The source moved past a run of draws and then past one more draw has moved past the longer run. */
  lemma AdvancePastDraw(s: Schedule, ds: Draws, d: Draw, next: Draws)
    requires next == Draws(ds.indices + [d.index], ds.used + d.used)
    ensures s.Advance(ds.used).Advance(d.used) == s.Advance(next.used)
  {
    AdvanceAdd(s, ds.used, d.used);
  }
}
