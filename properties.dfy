/**
 * What one pixel of the scan does to the encoder state and the stream, and
 * what the whole scan keeps: the run rules, the cache rules, the chunk that
 * is chosen and the previous pixel.
 */
module Properties {
  import opened Options
  import opened Pixels
  import opened Format
  import opened Chunks
  import opened Encoding

  /**
   * A repeat of the previous pixel only counts: the cache and the previous
   * pixel stay, and a Run chunk for the whole run is written exactly when the
   * run reaches 62 pixels or the pixel is the last one of the image.
   */
  lemma StepRepeat(st: State, p: Pixel, isLast: bool, hasAlpha: bool)
    requires Consistent(st, hasAlpha) && ValidPixel(p, hasAlpha) && p == st.prev
    ensures var r := Step(st, p, isLast, hasAlpha);
      && r.0.cache == st.cache && r.0.prev == st.prev
      && (st.run + 1 == RUN_UPPER_LIMIT || isLast ==>
            r.0.run == 0 && |r.1| == 1 && ReadChunk(r.1) == Some((OpRun(st.run + 1), 1)))
      && (!(st.run + 1 == RUN_UPPER_LIMIT || isLast) ==> r.0.run == st.run + 1 && r.1 == [])
  {
    RunChunkReads(st.run);
  }

  /** A pending run is written as one Run chunk of its length; an empty one is not written. */
  lemma PendingRunReads(run: nat)
    requires run < RUN_UPPER_LIMIT
    ensures run > 0 ==> ReadChunk(PendingRun(run)) == Some((OpRun(run), 1))
    ensures run == 0 ==> PendingRun(run) == []
  {
    if run > 0 {
      RunChunkReads(run - RUN_BIAS);
    }
  }

  /**
   * A pixel that differs from the previous one: the pending run is written
   * first, then exactly one chunk, which is an Index chunk for the pixel's
   * slot exactly when the slot holds the pixel. On a hit the cache is
   * untouched; on a miss the pixel goes into its slot and the chunk is the
   * literal one. Either way the pixel becomes the previous one and the run
   * counter is 0.
   */
  lemma StepNew(st: State, p: Pixel, isLast: bool, hasAlpha: bool)
    requires Consistent(st, hasAlpha) && ValidPixel(p, hasAlpha) && p != st.prev
    ensures var r := Step(st, p, isLast, hasAlpha);
      var slot := Hash(p, hasAlpha);
      var hit := st.cache[slot] == p;
      var pending := PendingRun(st.run);
      && r.0.prev == p && r.0.run == 0
      && |pending| <= |r.1| && r.1[..|pending|] == pending
      && var chunk := r.1[|pending|..];
      && ReadChunk(chunk).Some? && ReadChunk(chunk).value.1 == |chunk|
      && (ReadChunk(chunk).value.0.OpIndex? <==> hit)
      && (hit ==> ReadChunk(chunk).value.0 == OpIndex(slot) && r.0.cache == st.cache)
      && (!hit ==> chunk == Literal(p, st.prev, hasAlpha) && r.0.cache == st.cache[slot := p])
  {
    var r := Step(st, p, isLast, hasAlpha);
    var slot := Hash(p, hasAlpha);
    var pending := PendingRun(st.run);
    var chunk := if st.cache[slot] == p then IndexChunk(slot) else Literal(p, st.prev, hasAlpha);
    assert r.1 == pending + chunk;
    assert r.1[..|pending|] == pending && r.1[|pending|..] == chunk;
    if st.cache[slot] == p {
      IndexChunkReads(slot);
    } else {
      LiteralReads(p, st.prev, hasAlpha);
    }
  }

  /**
   * Only the pixel's own slot can change, and after a pixel that differs
   * from the previous one that slot holds the pixel. Every step leaves the
   * pixel as the previous one.
   */
  lemma StepCache(st: State, p: Pixel, isLast: bool, hasAlpha: bool)
    requires Consistent(st, hasAlpha) && ValidPixel(p, hasAlpha)
    ensures var r := Step(st, p, isLast, hasAlpha);
      var slot := Hash(p, hasAlpha);
      && |r.0.cache| == 64 && r.0.prev == p
      && (forall k | 0 <= k < 64 && k != slot :: r.0.cache[k] == st.cache[k])
      && r.0.cache[slot] == (if p == st.prev then st.cache[slot] else p)
  {
  }

  /** A step keeps every slot either at its initial value or at a pixel that hashes to it. */
  lemma StepSlotsHashed(st: State, p: Pixel, isLast: bool, hasAlpha: bool)
    requires Consistent(st, hasAlpha) && ValidPixel(p, hasAlpha) && SlotsHashed(st.cache, hasAlpha)
    ensures SlotsHashed(Step(st, p, isLast, hasAlpha).0.cache, hasAlpha)
  {
    var cache' := Step(st, p, isLast, hasAlpha).0.cache;
    StepCache(st, p, isLast, hasAlpha);
    forall k | 0 <= k < |cache'|
      ensures cache'[k] == Zero(hasAlpha) || (ValidPixel(cache'[k], hasAlpha) && Hash(cache'[k], hasAlpha) == k)
    {
      if k != Hash(p, hasAlpha) {
        assert cache'[k] == st.cache[k];
      }
    }
  }

  /** The scan keeps every slot at its initial value or at a pixel that hashes to it. */
  lemma {:induction false} ScanSlotsHashed(st0: State, ps: seq<Pixel>, n: nat, hasAlpha: bool)
    requires Consistent(st0, hasAlpha) && AllValid(ps, hasAlpha) && n <= |ps|
    requires SlotsHashed(st0.cache, hasAlpha)
    ensures SlotsHashed(Scan(st0, ps, n, hasAlpha).0.cache, hasAlpha)
  {
    if n > 0 {
      ScanSlotsHashed(st0, ps, n - 1, hasAlpha);
      StepSlotsHashed(Scan(st0, ps, n - 1, hasAlpha).0, ps[n - 1], n == |ps|, hasAlpha);
    }
  }

  /** The fresh encoder's cache keeps every slot at its initial value. */
  lemma InitSlotsHashed(hasAlpha: bool)
    ensures SlotsHashed(Init(hasAlpha).cache, hasAlpha)
  {
    var cache := Init(hasAlpha).cache;
    forall k | 0 <= k < |cache|
      ensures cache[k] == Zero(hasAlpha) || (ValidPixel(cache[k], hasAlpha) && Hash(cache[k], hasAlpha) == k)
    {
      assert cache[k] == Zero(hasAlpha);
    }
  }

  /**
   * After a scan, the previous pixel is the last pixel scanned, and the
   * pending run consists of the last `run` pixels, all equal to it.
   */
  lemma {:induction false} ScanPending(st0: State, ps: seq<Pixel>, n: nat, hasAlpha: bool)
    requires Consistent(st0, hasAlpha) && AllValid(ps, hasAlpha) && n <= |ps|
    requires st0.run == 0
    ensures var st := Scan(st0, ps, n, hasAlpha).0;
      && st.run <= n
      && (n > 0 ==> st.prev == ps[n - 1])
      && forall i | n - st.run <= i < n :: ps[i] == st.prev
  {
    if n > 0 {
      ScanPending(st0, ps, n - 1, hasAlpha);
      var st := Scan(st0, ps, n - 1, hasAlpha).0;
      var p := ps[n - 1];
      StepCache(st, p, n == |ps|, hasAlpha);
      if p == st.prev {
        StepRepeat(st, p, n == |ps|, hasAlpha);
      } else {
        StepNew(st, p, n == |ps|, hasAlpha);
      }
    }
  }

  /**
   * Two consecutive pixels never both give an Index chunk for the same
   * slot: after a hit the pixel is the previous one, so an equal pixel
   * goes to the run path, and a different pixel with the same slot misses.
   */
  lemma NoConsecutiveIndex(st: State, p: Pixel, q: Pixel, isLastP: bool, isLastQ: bool, hasAlpha: bool)
    requires Consistent(st, hasAlpha) && ValidPixel(p, hasAlpha) && ValidPixel(q, hasAlpha)
    requires Step(st, p, isLastP, hasAlpha).1 == PendingRun(st.run) + IndexChunk(Hash(p, hasAlpha))
    ensures Step(Step(st, p, isLastP, hasAlpha).0, q, isLastQ, hasAlpha).1 != IndexChunk(Hash(p, hasAlpha))
  {
    var slot := Hash(p, hasAlpha);
    var st1 := Step(st, p, isLastP, hasAlpha).0;
    IndexChunkReads(slot);
    assert p != st.prev by {
      if p == st.prev {
        StepRepeat(st, p, isLastP, hasAlpha);
        PendingRunReads(st.run);
      }
    }
    StepNew(st, p, isLastP, hasAlpha);
    PendingRunReads(st.run);
    assert st.cache[slot] == p by {
      assert Step(st, p, isLastP, hasAlpha).1[|PendingRun(st.run)|..] == IndexChunk(slot);
    }
    if q == st1.prev {
      StepRepeat(st1, q, isLastQ, hasAlpha);
      RunChunkReads(st1.run);
    } else {
      StepNew(st1, q, isLastQ, hasAlpha);
      assert Step(st1, q, isLastQ, hasAlpha).1[|PendingRun(st1.run)|..] == Step(st1, q, isLastQ, hasAlpha).1;
    }
  }
}
