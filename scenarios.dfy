/**
 * A worked example of the encoder: a run of two equal pixels and a third
 * pixel, all grey, chosen so that the chunk kinds can be read off by hand.
 */
module Scenarios {
  import opened Pixels
  import opened Format
  import opened Chunks
  import opened Encoding
  import opened Properties

  /**
   * A three-channel grey step of `d` in every channel, with `d` in [2, 31],
   * is too large for a Diff chunk and is written as the Luma chunk
   * `0x80 | (d + 32)`, `8 << 4 | 8`.
   */
  lemma GreyLuma(p: Pixel, prev: Pixel, d: int)
    requires ValidPixel(p, false) && ValidPixel(prev, false) && 2 <= d <= 31
    requires p[0] == prev[0] + d && p[1] == prev[1] + d && p[2] == prev[2] + d
    ensures Literal(p, prev, false) == [0x80 + d + 32, 0x88]
  {
    var dp := Delta(p, prev);
    assert dp == [d, d, d];
    assert !IsInDiffRange(dp);
    var (ok, lumaDp) := IsInLumaRange(dp);
    assert ok && lumaDp == [0, d, 0];
    assert MakePixel(8, d + 32, 8, 0, false) == [8, d + 32, 8];
  }

  /** A pixel that differs from the previous one and misses the cache: the pending run, then the literal chunk. */
  lemma MissWithPending(st: State, p: Pixel, isLast: bool)
    requires Consistent(st, false) && ValidPixel(p, false)
    requires p != st.prev && st.cache[Hash(p, false)] != p
    ensures Step(st, p, isLast, false)
      == (State(st.cache[Hash(p, false) := p], p, 0), PendingRun(st.run) + Literal(p, st.prev, false))
  {
  }

  /**
   * The first two pixels of GreyRunThenLuma: a Luma chunk for the step of g
   * from the initial black, which enters its slot, then a counted repeat.
   */
  lemma GreyPrefix(g: int, d: int)
    requires 2 <= g <= 31 && 2 <= d <= 31
    ensures var a: Pixel, b: Pixel := [g, g, g], [g + d, g + d, g + d];
      Scan(Init(false), [a, a, b], 2, false)
        == (State(Init(false).cache[Hash(a, false) := a], a, 1), [0x80 + g + 32, 0x88])
  {
    var a: Pixel, b: Pixel := [g, g, g], [g + d, g + d, g + d];
    var ps := [a, a, b];
    var st0 := Init(false);
    assert AllValid(ps, false);
    assert st0.prev == [0, 0, 0] && st0.cache[Hash(a, false)] == [0, 0, 0];
    MissWithPending(st0, a, false);
    GreyLuma(a, st0.prev, g);
    var st1 := State(st0.cache[Hash(a, false) := a], a, 0);
    var c1: seq<byte> := [0x80 + g + 32, 0x88];
    assert PendingRun(0) + c1 == c1 && [] + c1 == c1;
    assert Step(st0, a, false, false) == (st1, c1);
    ScanNext(st0, ps, 0, false);
    assert Scan(st0, ps, 1, false) == (st1, c1);
    StepRepeat(st1, a, false, false);
    assert Step(st1, a, false, false) == (State(st1.cache, a, 1), []);
    ScanNext(st0, ps, 1, false);
    assert c1 + [] == c1;
  }

  /**
   * The third pixel of GreyRunThenLuma: the counted repeat is flushed as a
   * Run chunk of length 1, then the step of d is a Luma chunk.
   */
  lemma GreyFlushLuma(g: int, d: int)
    requires 2 <= g <= 31 && 2 <= d <= 31
    ensures var a: Pixel, b: Pixel := [g, g, g], [g + d, g + d, g + d];
      Step(State(Init(false).cache[Hash(a, false) := a], a, 1), b, true, false).1
        == [0xC0, 0x80 + d + 32, 0x88]
  {
    var a: Pixel, b: Pixel := [g, g, g], [g + d, g + d, g + d];
    var st2 := State(Init(false).cache[Hash(a, false) := a], a, 1);
    assert st2.cache[Hash(b, false)] == [0, 0, 0] || st2.cache[Hash(b, false)] == a;
    MissWithPending(st2, b, true);
    GreyLuma(b, a, d);
    assert PendingRun(1) == [0xC0];
  }

  /** The output of one more pixel, from the scan of the shorter prefix and the chunk of its Step. */
  lemma ScanAppend(st0: State, ps: seq<Pixel>, n: nat, st: State, out: seq<byte>, chunk: seq<byte>)
    requires Consistent(st0, false) && AllValid(ps, false) && n < |ps|
    requires Scan(st0, ps, n, false) == (st, out)
    requires Step(st, ps[n], n + 1 == |ps|, false).1 == chunk
    ensures Scan(st0, ps, n + 1, false).1 == out + chunk
  {
    ScanNext(st0, ps, n, false);
  }

  /**
   * A grey pixel g twice, then the grey pixel g + d, with g and d in
   * [2, 31]: a Luma chunk for the step of g from the initial black, nothing
   * while the repeat is counted, then the Run chunk of length 1 and the Luma
   * chunk for the step of d.
   */
  lemma GreyRunThenLuma(g: int, d: int)
    requires 2 <= g <= 31 && 2 <= d <= 31
    ensures var a: Pixel, b: Pixel := [g, g, g], [g + d, g + d, g + d];
      Scan(Init(false), [a, a, b], 3, false).1 == [0x80 + g + 32, 0x88, 0xC0, 0x80 + d + 32, 0x88]
  {
    var a: Pixel, b: Pixel := [g, g, g], [g + d, g + d, g + d];
    var ps := [a, a, b];
    assert AllValid(ps, false);
    GreyPrefix(g, d);
    GreyFlushLuma(g, d);
    var c1: seq<byte> := [0x80 + g + 32, 0x88];
    var c3: seq<byte> := [0xC0, 0x80 + d + 32, 0x88];
    ScanAppend(Init(false), ps, 2, State(Init(false).cache[Hash(a, false) := a], a, 1), c1, c3);
    assert c1 + c3 == [0x80 + g + 32, 0x88, 0xC0, 0x80 + d + 32, 0x88];
  }

  /**
   * Grey (5, 5, 5) twice, then grey (9, 9, 9): the step of 5 from black lies
   * outside the Diff range [-2, 1] and is the Luma chunk `0xA5, 0x88`, the
   * repeat is the Run chunk `0xC0`, and the step of 4 is `0xA4, 0x88`.
   */
  lemma RunThenLuma()
    ensures Scan(Init(false), [[5, 5, 5], [5, 5, 5], [9, 9, 9]], 3, false).1 == [0xA5, 0x88, 0xC0, 0xA4, 0x88]
  {
    GreyRunThenLuma(5, 4);
  }
}
