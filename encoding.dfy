/**
 * The QOI encoder: the per-pixel chunk selection as a function of the
 * encoder state (Step), the whole scan (Scan, EncodeStream), and the
 * `Encoder` class whose methods update the cache array, the previous pixel
 * and the run counter in place and append to the output stream.
 */
module Encoding {
  import opened Options
  import opened Pixels
  import opened Format
  import opened Chunks
  import opened Sequences

  /** The encoder state: `arr`, `previousPixel` and `runningPixCnt`. */
  datatype State = State(cache: seq<Pixel>, prev: Pixel, run: nat)

  /** The value every cache slot starts with: all channels zero. */
  function Zero(hasAlpha: bool): Pixel
  {
    MakePixel(0, 0, 0, 0, hasAlpha)
  }

  /** The value `previousPixel` starts with: zero colour, alpha 255. */
  function InitPrev(hasAlpha: bool): Pixel
  {
    MakePixel(0, 0, 0, 255, hasAlpha)
  }

  /** The state of a fresh encoder: every slot zero, the previous pixel opaque black, no run. */
  function Init(hasAlpha: bool): (st: State)
    ensures Consistent(st, hasAlpha) && st.run == 0 && st.prev == InitPrev(hasAlpha)
    ensures |st.cache| == 64 && forall k | 0 <= k < 64 :: st.cache[k] == Zero(hasAlpha)
  {
    State(seq(64, _ => Zero(hasAlpha)), InitPrev(hasAlpha), 0)
  }

  /**
   * What the encoder needs of its state between pixels: 64 cache slots, a
   * previous pixel of the right width, and a run counter below the 62-pixel
   * limit.
   */
  predicate Consistent(st: State, hasAlpha: bool)
  {
    |st.cache| == 64 && ValidPixel(st.prev, hasAlpha) && st.run < RUN_UPPER_LIMIT
  }

  /** Every cache slot holds its initial value or a pixel of the right width that hashes to it. */
  predicate SlotsHashed(cache: seq<Pixel>, hasAlpha: bool)
  {
    forall k | 0 <= k < |cache| ::
      cache[k] == Zero(hasAlpha) || (ValidPixel(cache[k], hasAlpha) && Hash(cache[k], hasAlpha) == k)
  }

  /** The alpha channel differs from the previous pixel's (only with alpha). */
  predicate AlphaChanged(p: Pixel, prev: Pixel, hasAlpha: bool)
    requires ValidPixel(p, hasAlpha) && ValidPixel(prev, hasAlpha)
  {
    hasAlpha && Alpha(p) != Alpha(prev)
  }

  /** Every colour delta (modulo 256, signed) lies in [-2, 1]. */
  predicate DiffFits(p: Pixel, prev: Pixel)
    requires |p| == |prev| && (|p| == 3 || |p| == 4)
  {
    var d := Delta(p, prev);
    forall i | 0 <= i < 3 :: -2 <= d[i] <= 1
  }

  /** The green delta lies in [-32, 31], red and blue relative to it in [-8, 7]. */
  predicate LumaFits(p: Pixel, prev: Pixel)
    requires |p| == |prev| && (|p| == 3 || |p| == 4)
  {
    var d := Delta(p, prev);
    && -32 <= Green(d) <= 31
    && -8 <= Red(d) as int - Green(d) as int <= 7
    && -8 <= Blue(d) as int - Green(d) as int <= 7
  }

  /** A Diff chunk made of the signed deltas takes the previous pixel to the pixel. */
  lemma DiffReconstructs(p: Pixel, prev: Pixel, hasAlpha: bool)
    requires ValidPixel(p, hasAlpha) && ValidPixel(prev, hasAlpha)
    requires !AlphaChanged(p, prev, hasAlpha)
    ensures var d := Delta(p, prev);
      Reconstruct(ToRgba(prev), OpDiff(Red(d), Green(d), Blue(d))) == ToRgba(p)
  {
    var d := Delta(p, prev);
    DeltaChannels(p, prev);
    WrapBack(prev[0], d[0], p[0]);
    WrapBack(prev[1], d[1], p[1]);
    WrapBack(prev[2], d[2], p[2]);
    var px, q := ToRgba(prev), ToRgba(p);
    var r := Reconstruct(px, OpDiff(Red(d), Green(d), Blue(d)));
    assert r[0] == q[0] && r[1] == q[1] && r[2] == q[2] && r[3] == q[3];
  }

  /** A Luma chunk made of the green delta and red and blue relative to it does the same. */
  lemma LumaReconstructs(p: Pixel, prev: Pixel, hasAlpha: bool)
    requires ValidPixel(p, hasAlpha) && ValidPixel(prev, hasAlpha)
    requires !AlphaChanged(p, prev, hasAlpha)
    ensures var d := Delta(p, prev);
      Reconstruct(ToRgba(prev), OpLuma(Green(d), Red(d) as int - Green(d) as int, Blue(d) as int - Green(d) as int))
        == ToRgba(p)
  {
    var d := Delta(p, prev);
    DeltaChannels(p, prev);
    WrapBack(prev[0], d[0], p[0]);
    WrapBack(prev[1], d[1], p[1]);
    WrapBack(prev[2], d[2], p[2]);
    var px, q := ToRgba(prev), ToRgba(p);
    var r := Reconstruct(px, OpLuma(Green(d), Red(d) as int - Green(d) as int, Blue(d) as int - Green(d) as int));
    assert r[0] == (px[0] + d[0]) % 256 && r[2] == (px[2] + d[2]) % 256;
    assert r[0] == q[0] && r[1] == q[1] && r[2] == q[2] && r[3] == q[3];
  }

  /** An RGB chunk keeps the previous alpha, which is the pixel's own when alpha did not change. */
  lemma RgbReconstructs(p: Pixel, prev: Pixel, hasAlpha: bool)
    requires ValidPixel(p, hasAlpha) && ValidPixel(prev, hasAlpha)
    requires !AlphaChanged(p, prev, hasAlpha)
    ensures Reconstruct(ToRgba(prev), OpRgb(Red(p), Green(p), Blue(p))) == ToRgba(p)
  {
  }

  /** The Diff chunk of a pixel whose colour deltas all lie in [-2, 1]: `diffChunk(dp + bias)`. */
  function DiffLiteral(p: Pixel, prev: Pixel, hasAlpha: bool): (r: seq<byte>)
    requires ValidPixel(p, hasAlpha) && ValidPixel(prev, hasAlpha)
    requires IsInDiffRange(Delta(p, prev))
    ensures |r| == 1 && QOI_OP_DIFF <= r[0] < QOI_OP_LUMA
  {
    var dp := Delta(p, prev);
    DiffRange(dp);
    DiffChunk(MakePixel(Blue(dp) + DIFF_BIAS, Green(dp) + DIFF_BIAS, Red(dp) + DIFF_BIAS, 0, hasAlpha))
  }

  /** The Luma chunk of a pixel whose deltas fit the Luma ranges: `lumaChunk(lumaDp + bias)`. */
  function LumaLiteral(p: Pixel, prev: Pixel, hasAlpha: bool): (r: seq<byte>)
    requires ValidPixel(p, hasAlpha) && ValidPixel(prev, hasAlpha)
    requires IsInLumaRange(Delta(p, prev)).0
    ensures |r| == 2 && QOI_OP_LUMA <= r[0] < QOI_OP_RUN && r[0] - QOI_OP_LUMA == Green(Delta(p, prev)) + 32
  {
    var lumaDp := IsInLumaRange(Delta(p, prev)).1;
    LumaRange(Delta(p, prev));
    LumaChunk(MakePixel(Blue(lumaDp) + LUMA_RED_BLUE_BIAS, Green(lumaDp) + LUMA_GREEN_BIAS,
                        Red(lumaDp) + LUMA_RED_BLUE_BIAS, 0, hasAlpha))
  }

  /**
   * The chunk for a pixel that differs from the previous one and is not in
   * the cache: RGBA when alpha changed, else Diff, else Luma, else RGB.
   */
  function Literal(p: Pixel, prev: Pixel, hasAlpha: bool): (r: seq<byte>)
    requires ValidPixel(p, hasAlpha) && ValidPixel(prev, hasAlpha)
    ensures |r| == if AlphaChanged(p, prev, hasAlpha) then 5
                   else if DiffFits(p, prev) then 1
                   else if LumaFits(p, prev) then 2
                   else 4
  {
    var dp := Delta(p, prev);
    DeltaChannels(p, prev);
    DiffRange(dp);
    LumaRange(dp);
    if hasAlpha && Alpha(dp) != 0 then RgbaChunk(p)
    else if IsInDiffRange(dp) then DiffLiteral(p, prev, hasAlpha)
    else if IsInLumaRange(dp).0 then LumaLiteral(p, prev, hasAlpha)
    else RgbChunk(p)
  }

  /** The Diff chunk reads back as a Diff that takes the previous pixel to the pixel. */
  lemma DiffLiteralReads(p: Pixel, prev: Pixel, hasAlpha: bool)
    requires ValidPixel(p, hasAlpha) && ValidPixel(prev, hasAlpha)
    requires !AlphaChanged(p, prev, hasAlpha) && IsInDiffRange(Delta(p, prev))
    ensures var r := DiffLiteral(p, prev, hasAlpha);
      && ReadChunk(r).Some? && ReadChunk(r).value.1 == |r| && ReadChunk(r).value.0.OpDiff?
      && Reconstruct(ToRgba(prev), ReadChunk(r).value.0) == ToRgba(p)
  {
    var dp := Delta(p, prev);
    DiffRange(dp);
    DiffChunkReads(MakePixel(Blue(dp) + DIFF_BIAS, Green(dp) + DIFF_BIAS, Red(dp) + DIFF_BIAS, 0, hasAlpha));
    DiffReconstructs(p, prev, hasAlpha);
  }

  /** The Luma chunk reads back as a Luma that takes the previous pixel to the pixel. */
  lemma LumaLiteralReads(p: Pixel, prev: Pixel, hasAlpha: bool)
    requires ValidPixel(p, hasAlpha) && ValidPixel(prev, hasAlpha)
    requires !AlphaChanged(p, prev, hasAlpha) && IsInLumaRange(Delta(p, prev)).0
    ensures var r := LumaLiteral(p, prev, hasAlpha);
      && ReadChunk(r).Some? && ReadChunk(r).value.1 == |r| && ReadChunk(r).value.0.OpLuma?
      && Reconstruct(ToRgba(prev), ReadChunk(r).value.0) == ToRgba(p)
  {
    var lumaDp := IsInLumaRange(Delta(p, prev)).1;
    LumaRange(Delta(p, prev));
    LumaChunkReads(MakePixel(Blue(lumaDp) + LUMA_RED_BLUE_BIAS, Green(lumaDp) + LUMA_GREEN_BIAS,
                             Red(lumaDp) + LUMA_RED_BLUE_BIAS, 0, hasAlpha));
    LumaReconstructs(p, prev, hasAlpha);
  }

  /**
   * The selection order of the literal chunks, and what a reader makes of
   * the chunk: it is one whole chunk, and applied to the previous pixel it
   * gives the pixel.
   */
  lemma LiteralReads(p: Pixel, prev: Pixel, hasAlpha: bool)
    requires ValidPixel(p, hasAlpha) && ValidPixel(prev, hasAlpha)
    ensures var r := Literal(p, prev, hasAlpha);
      && ReadChunk(r).Some? && ReadChunk(r).value.1 == |r|
      && var op := ReadChunk(r).value.0;
      && (op.OpRgba? <==> AlphaChanged(p, prev, hasAlpha))
      && (op.OpDiff? <==> !AlphaChanged(p, prev, hasAlpha) && DiffFits(p, prev))
      && (op.OpLuma? <==> !AlphaChanged(p, prev, hasAlpha) && !DiffFits(p, prev) && LumaFits(p, prev))
      && (op.OpRgb? <==> !AlphaChanged(p, prev, hasAlpha) && !DiffFits(p, prev) && !LumaFits(p, prev))
      && Reconstruct(ToRgba(prev), op) == ToRgba(p)
  {
    var dp := Delta(p, prev);
    DeltaChannels(p, prev);
    DiffRange(dp);
    LumaRange(dp);
    assert AlphaChanged(p, prev, hasAlpha) <==> hasAlpha && Alpha(dp) != 0;
    assert DiffFits(p, prev) <==> IsInDiffRange(dp);
    assert LumaFits(p, prev) <==> IsInLumaRange(dp).0;
    if hasAlpha && Alpha(dp) != 0 {
      RgbaChunkReads(p);
    } else if IsInDiffRange(dp) {
      DiffLiteralReads(p, prev, hasAlpha);
    } else if IsInLumaRange(dp).0 {
      LumaLiteralReads(p, prev, hasAlpha);
    } else {
      RgbChunkReads(p);
      RgbReconstructs(p, prev, hasAlpha);
    }
  }

  /**
   * The Run chunk that closes a pending run of `run` pixels before a
   * different pixel: none when no run is pending.
   */
  function PendingRun(run: nat): (r: seq<byte>)
    requires run < RUN_UPPER_LIMIT
    ensures run == 0 ==> r == []
    ensures run > 0 ==> |r| == 1 && r[0] - QOI_OP_RUN == run - 1
  {
    if run > 0 then RunChunk(run - RUN_BIAS) else []
  }

  /**
   * One pixel of the scan (the body of the loops of `encodeImage`): the new
   * state and the bytes written for the pixel.
   */
  function Step(st: State, p: Pixel, isLast: bool, hasAlpha: bool): (r: (State, seq<byte>))
    requires Consistent(st, hasAlpha) && ValidPixel(p, hasAlpha)
    ensures Consistent(r.0, hasAlpha)
  {
    if p == st.prev then
      var run := st.run + 1;
      if run == RUN_UPPER_LIMIT || isLast then
        (st.(run := 0), RunChunk(run - RUN_BIAS))
      else
        (st.(run := run), [])
    else
      var pending := PendingRun(st.run);
      var slot := Hash(p, hasAlpha);
      if st.cache[slot] == p then
        (State(st.cache, p, 0), pending + IndexChunk(slot))
      else
        (State(st.cache[slot := p], p, 0), pending + Literal(p, st.prev, hasAlpha))
  }

  /** Every pixel of the image has the encoder's channel count. */
  predicate AllValid(ps: seq<Pixel>, hasAlpha: bool)
  {
    forall i | 0 <= i < |ps| :: ValidPixel(ps[i], hasAlpha)
  }

  /**
   * The scan of the first `n` pixels of `ps` from state `st0`; the pixel at
   * position `|ps| - 1` is the last one of the image.
   */
  function Scan(st0: State, ps: seq<Pixel>, n: nat, hasAlpha: bool): (r: (State, seq<byte>))
    requires Consistent(st0, hasAlpha) && AllValid(ps, hasAlpha) && n <= |ps|
    ensures Consistent(r.0, hasAlpha)
    ensures 0 < n == |ps| ==> r.0.run == 0
  {
    if n == 0 then (st0, [])
    else
      var (st, out) := Scan(st0, ps, n - 1, hasAlpha);
      var (st', chunk) := Step(st, ps[n - 1], n == |ps|, hasAlpha);
      (st', out + chunk)
  }

  /** Scanning one more pixel is one more Step from the state the shorter scan left. */
  lemma ScanNext(st0: State, ps: seq<Pixel>, n: nat, hasAlpha: bool)
    requires Consistent(st0, hasAlpha) && AllValid(ps, hasAlpha) && n < |ps|
    ensures var prefix := Scan(st0, ps, n, hasAlpha);
      var next := Step(prefix.0, ps[n], n + 1 == |ps|, hasAlpha);
      Scan(st0, ps, n + 1, hasAlpha) == (next.0, prefix.1 + next.1)
  {
  }

  /**
   * `trace[k]` is the scan of the first `k` pixels, for every `k`: the
   * states and outputs the encoder passes through.
   */
  ghost predicate IsTrace(trace: seq<(State, seq<byte>)>, st0: State, ps: seq<Pixel>, hasAlpha: bool)
    requires Consistent(st0, hasAlpha) && AllValid(ps, hasAlpha)
  {
    && |trace| == |ps| + 1
    && forall k {:trigger Scan(st0, ps, k, hasAlpha)} | 0 <= k <= |ps| :: trace[k] == Scan(st0, ps, k, hasAlpha)
  }

  /** The states and outputs of every prefix of a scan, from the empty prefix to the whole sequence. */
  lemma ScanTrace(st0: State, ps: seq<Pixel>, hasAlpha: bool) returns (trace: seq<(State, seq<byte>)>)
    requires Consistent(st0, hasAlpha) && AllValid(ps, hasAlpha)
    ensures IsTrace(trace, st0, ps, hasAlpha)
    ensures trace[0] == (st0, []) && trace[|ps|] == Scan(st0, ps, |ps|, hasAlpha)
  {
    trace := seq(|ps| + 1, k requires 0 <= k <= |ps| => Scan(st0, ps, k, hasAlpha));
    assert trace[0] == Scan(st0, ps, 0, hasAlpha);
  }

  /** The whole stream `operator<<` writes for a fresh encoder: header, chunks, end marker. */
  function EncodeStream(rows: nat, cols: nat, pixels: seq<Pixel>, hasAlpha: bool): (r: seq<byte>)
    requires rows <= MAX_U32 && cols <= MAX_U32 && |pixels| == rows * cols
    requires AllValid(pixels, hasAlpha)
    ensures |r| >= 22
    ensures ReadHeader(r[..14]) == Some(Header(cols, rows, Channels(hasAlpha), COLORSPACE))
    ensures r[|r| - 8..] == EOS
  {
    var header := HeaderBytes(rows, cols, hasAlpha);
    var body := Scan(Init(hasAlpha), pixels, |pixels|, hasAlpha).1;
    var r := header + body + EOS;
    assert r[..14] == header;
    r
  }

  /**
   * Row-major positions: (r, c) is inside the image, and `isLastPixel` holds
   * exactly at the last position of the scan.
   */
  lemma RowMajor(r: nat, c: nat, rows: nat, cols: nat)
    requires r < rows && c < cols
    ensures r * cols + c < rows * cols
    ensures r * cols + c == rows * cols - 1 <==> IsLastPixel(r, c, rows, cols)
  {
    MulMonotonic(r + 1, rows, cols);
    assert (r + 1) * cols == r * cols + cols;
    if r < rows - 1 {
      MulMonotonic(r + 2, rows, cols);
      assert (r + 2) * cols == r * cols + cols + cols;
    } else {
      assert rows * cols == r * cols + cols;
    }
  }

  /** Row `r` of the image ends inside the pixel sequence, at its end exactly for the last row. */
  lemma RowMajorBound(r: nat, rows: nat, cols: nat)
    requires r < rows
    ensures r * cols + cols == (r + 1) * cols <= rows * cols
    ensures cols > 0 ==> (r + 1 == rows <==> r * cols + cols == rows * cols)
  {
    MulMonotonic(r + 1, rows, cols);
    if r + 1 < rows {
      MulMonotonic(r + 2, rows, cols);
      assert (r + 2) * cols == r * cols + cols + cols;
    }
  }

  lemma {:induction false} MulMonotonic(a: nat, b: nat, n: nat)
    requires a <= b
    ensures a * n <= b * n
    decreases b - a
  {
    if a < b {
      MulMonotonic(a, b - 1, n);
      assert b * n == (b - 1) * n + n;
    }
  }

  /**
   * `isLastPixel({r, c})`: the point is built as (x, y) = (r, c) and tested
   * against (rows - 1, cols - 1), which is the last pixel in scan order.
   */
  predicate IsLastPixel(r: nat, c: nat, rows: nat, cols: nat)
    ensures IsLastPixel(r, c, rows, cols) ==> r < rows && c < cols
  {
    r == rows - 1 && c == cols - 1
  }

  class Encoder {
    /** The template parameter: 4-channel pixels with alpha, or 3-channel. */
    const hasAlpha: bool
    /** `arr`: the 64-slot colour cache. */
    const cache: array<Pixel>
    /** `previousPixel` */
    var prev: Pixel
    /** `runningPixCnt` */
    var run: nat
    /** Everything written to the output stream so far. */
    var out: seq<byte>

    ghost predicate Valid()
      reads this, cache
    {
      cache.Length == 64 && Consistent(Current(), hasAlpha)
    }

    /** The encoder state as a value. */
    function Current(): State
      reads this, cache
    {
      State(cache[..], prev, run)
    }

    /** The constructor: cache slots all zero, previous pixel zero with alpha 255, no run. */
    constructor (hasAlpha: bool)
      ensures this.hasAlpha == hasAlpha && fresh(cache)
      ensures Valid() && Current() == Init(hasAlpha) && out == []
    {
      this.hasAlpha := hasAlpha;
      cache := new Pixel[64](_ => Zero(hasAlpha));
      prev := InitPrev(hasAlpha);
      run := 0;
      out := [];
      new;
      assert cache[..] == seq(64, _ => Zero(hasAlpha));
    }

    /** `isSeenBefore`: whether the pixel's slot holds the pixel, and the slot. */
    function IsSeenBefore(p: Pixel): (r: (bool, nat))
      reads this, cache
      requires Valid() && ValidPixel(p, hasAlpha)
      ensures r.1 == Hash(p, hasAlpha) && r.1 < cache.Length
      ensures r.0 <==> cache[r.1] == p
    {
      var slot := Hash(p, hasAlpha);
      (cache[slot] == p, slot)
    }

    /**
     * The miss branch of `encodeImage` after the cache update: RGBA when alpha
     * changed, else Diff, else Luma, else RGB.
     */
    method WriteLiteral(p: Pixel)
      requires ValidPixel(p, hasAlpha) && ValidPixel(prev, hasAlpha)
      modifies this`out
      ensures out == old(out) + Literal(p, prev, hasAlpha)
    {
      var dp := Delta(p, prev);
      if hasAlpha && Alpha(dp) != 0 {
        out := out + RgbaChunk(p);
      } else if IsInDiffRange(dp) {
        out := out + DiffLiteral(p, prev, hasAlpha);
      } else if IsInLumaRange(dp).0 {
        out := out + LumaLiteral(p, prev, hasAlpha);
      } else {
        out := out + RgbChunk(p);
      }
    }

    /** Writing the pending run as one Run chunk and resetting the counter. */
    method FlushRun()
      requires 0 < run <= RUN_UPPER_LIMIT
      modifies this`out, this`run
      ensures out == old(out) + RunChunk(old(run) - RUN_BIAS) && run == 0
    {
      run := run - RUN_BIAS;
      out := out + RunChunk(run);
      run := 0;
    }

    /** The branch of `encodeImage` for a repeat of the previous pixel: count it, and write the run when it is full or the image ends. */
    method RepeatPixel(isLast: bool)
      requires Valid()
      modifies this`out, this`run
      ensures Valid()
      ensures Current() == Step(old(Current()), prev, isLast, hasAlpha).0
      ensures out == old(out) + Step(old(Current()), prev, isLast, hasAlpha).1
    {
      run := run + 1;
      if run == RUN_UPPER_LIMIT || isLast {
        FlushRun();
      }
    }

    /**
     * The branch of `encodeImage` for a pixel that differs from the previous
     * one: the pending run, then an Index chunk on a cache hit, or else the
     * cache update and a literal chunk; the pixel becomes the previous one.
     */
    method NewPixel(p: Pixel)
      requires Valid() && ValidPixel(p, hasAlpha) && p != prev
      modifies this, cache
      ensures Valid()
      ensures Current() == Step(old(Current()), p, false, hasAlpha).0
      ensures out == old(out) + Step(old(Current()), p, false, hasAlpha).1
    {
      ghost var st := Current();
      ghost var out0 := out;
      if run > 0 {
        FlushRun();
      }
      assert out == out0 + PendingRun(st.run);
      var seen := IsSeenBefore(p);
      if seen.0 {
        out := out + IndexChunk(seen.1);
        AppendAssoc(out0, PendingRun(st.run), IndexChunk(seen.1));
      } else {
        cache[seen.1] := p;
        assert cache[..] == st.cache[seen.1 := p];
        WriteLiteral(p);
        AppendAssoc(out0, PendingRun(st.run), Literal(p, st.prev, hasAlpha));
      }
      prev := p;
    }

    /**
     * `EncodePixel` on the pixel at position `n` of the scan, stated as the
     * scan advancing by one pixel.
     */
    method EncodeNext(p: Pixel, isLast: bool, ghost st0: State, ghost pixels: seq<Pixel>,
                      ghost trace: seq<(State, seq<byte>)>, ghost n: nat, ghost out0: seq<byte>)
      requires Consistent(st0, hasAlpha) && AllValid(pixels, hasAlpha) && IsTrace(trace, st0, pixels, hasAlpha)
      requires n < |pixels| && p == pixels[n] && isLast == (n + 1 == |pixels|)
      requires Valid() && Current() == trace[n].0 && out == out0 + trace[n].1
      modifies this, cache
      ensures Valid() && Current() == trace[n + 1].0 && out == out0 + trace[n + 1].1
    {
      ghost var prefix := Scan(st0, pixels, n, hasAlpha);
      ghost var next := Step(prefix.0, p, isLast, hasAlpha);
      ghost var full := Scan(st0, pixels, n + 1, hasAlpha);
      ScanNext(st0, pixels, n, hasAlpha);
      EncodePixel(p, isLast);
      AppendAssoc(out0, prefix.1, next.1);
    }

    /** One iteration of the loops of `encodeImage`. */
    method EncodePixel(p: Pixel, isLast: bool)
      requires Valid() && ValidPixel(p, hasAlpha)
      modifies this, cache
      ensures Valid()
      ensures Current() == Step(old(Current()), p, isLast, hasAlpha).0
      ensures out == old(out) + Step(old(Current()), p, isLast, hasAlpha).1
    {
      if p == prev {
        RepeatPixel(isLast);
      } else {
        NewPixel(p);
        assert Step(old(Current()), p, false, hasAlpha) == Step(old(Current()), p, isLast, hasAlpha);
      }
    }

    /** `header`: refuses dimensions beyond 32 bits before writing anything. */
    method Header(rows: nat, cols: nat) returns (ok: bool)
      modifies this`out
      ensures ok <==> rows <= MAX_U32 && cols <= MAX_U32
      ensures ok ==> out == old(out) + HeaderBytes(rows, cols, hasAlpha)
      ensures !ok ==> out == old(out)
    {
      if rows > MAX_U32 || cols > MAX_U32 {
        return false;
      }
      out := out + MAGIC;
      out := out + U32Bytes(cols);
      out := out + U32Bytes(rows);
      var channels: byte := Channels(hasAlpha);
      out := out + [channels];
      out := out + [COLORSPACE];
      ok := true;
    }

    /**
     * The inner loop of `encodeImage`: the pixels of row `r`, which start at
     * position `start` of the row-major sequence, from the state the rows
     * before it left.
     */
    method EncodeRow(r: nat, rows: nat, cols: nat, start: nat, pixels: seq<Pixel>,
                     ghost st0: State, ghost trace: seq<(State, seq<byte>)>, ghost out0: seq<byte>)
      requires r < rows && start + cols <= |pixels|
      requires cols > 0 ==> (r + 1 == rows <==> start + cols == |pixels|)
      requires Consistent(st0, hasAlpha) && AllValid(pixels, hasAlpha) && IsTrace(trace, st0, pixels, hasAlpha)
      requires Valid() && Current() == trace[start].0 && out == out0 + trace[start].1
      modifies this, cache
      ensures Valid() && Current() == trace[start + cols].0 && out == out0 + trace[start + cols].1
    {
      var n := start;
      while n < start + cols
        invariant start <= n <= start + cols
        invariant Valid() && Current() == trace[n].0 && out == out0 + trace[n].1
      {
        var last := IsLastPixel(r, n - start, rows, cols);
        EncodeNext(pixels[n], last, st0, pixels, trace, n, out0);
        n := n + 1;
      }
    }

    /** `encodeImage`: every pixel in row-major order. */
    method EncodeImage(rows: nat, cols: nat, pixels: seq<Pixel>)
      requires Valid() && |pixels| == rows * cols && AllValid(pixels, hasAlpha)
      modifies this, cache
      ensures Valid()
      ensures Current() == Scan(old(Current()), pixels, |pixels|, hasAlpha).0
      ensures out == old(out) + Scan(old(Current()), pixels, |pixels|, hasAlpha).1
    {
      ghost var st0 := Current();
      ghost var out0 := out;
      ghost var trace := ScanTrace(st0, pixels, hasAlpha);
      var r, start := 0, 0;
      while r < rows
        invariant 0 <= r <= rows && start == r * cols
        invariant Valid() && Current() == trace[start].0 && out == out0 + trace[start].1
      {
        RowMajorBound(r, rows, cols);
        EncodeRow(r, rows, cols, start, pixels, st0, trace, out0);
        r, start := r + 1, start + cols;
      }
      if rows == 0 {
        assert |pixels| == 0;
      }
    }

    /** `markEnd`: the end-of-stream marker. */
    method MarkEnd()
      modifies this`out
      ensures out == old(out) + EOS
    {
      out := out + EOS;
    }

    /**
     * `operator<<`: header, pixels, end marker. Nothing is written, and the
     * state is untouched, when a dimension does not fit 32 bits.
     */
    method Encode(rows: nat, cols: nat, pixels: seq<Pixel>) returns (ok: bool)
      requires Valid() && |pixels| == rows * cols && AllValid(pixels, hasAlpha)
      modifies this, cache
      ensures Valid()
      ensures ok <==> rows <= MAX_U32 && cols <= MAX_U32
      ensures !ok ==> out == old(out) && Current() == old(Current())
      ensures ok ==> Current() == Scan(old(Current()), pixels, |pixels|, hasAlpha).0
      ensures ok ==> out == old(out) + HeaderBytes(rows, cols, hasAlpha)
                            + Scan(old(Current()), pixels, |pixels|, hasAlpha).1 + EOS
    {
      ok := Header(rows, cols);
      if !ok {
        return;
      }
      EncodeImage(rows, cols, pixels);
      MarkEnd();
    }
  }

  /**
   * Encoding an image with a freshly constructed encoder, as the callers of
   * the library do: the bytes are the stream EncodeStream describes.
   */
  method EncodeFresh(rows: nat, cols: nat, pixels: seq<Pixel>, hasAlpha: bool) returns (ok: bool, bytes: seq<byte>)
    requires |pixels| == rows * cols && AllValid(pixels, hasAlpha)
    ensures ok <==> rows <= MAX_U32 && cols <= MAX_U32
    ensures ok ==> bytes == EncodeStream(rows, cols, pixels, hasAlpha)
    ensures !ok ==> bytes == []
  {
    var e := new Encoder(hasAlpha);
    ok := e.Encode(rows, cols, pixels);
    bytes := e.out;
  }
}
