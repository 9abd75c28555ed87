/**
 * Pixels, signed pixel deltas, the range tests on deltas and the colour-cache
 * hash of the encoder (the `util` helpers of the source).
 */
module Pixels {

  /** An unsigned 8-bit value (`uint8_t`). */
  type byte = x: int | 0 <= x < 256

  /** A signed 8-bit value (`int8_t`). */
  type sbyte = x: int | -128 <= x < 128

  /** A pixel: 3 or 4 channels in the order blue, green, red[, alpha]. */
  type Pixel = seq<byte>

  /** A channel-wise signed difference of two pixels. */
  type SignedPixel = seq<sbyte>

  // Range limits of the Diff and Luma chunks, exclusive on both sides as in the source.
  const DIFF_UPPER_RANGE: int := 2
  const DIFF_LOWER_RANGE: int := -3
  const LUMA_GREEN_UPPER_RANGE: int := 32
  const LUMA_GREEN_LOWER_RANGE: int := -33
  const LUMA_RED_BLUE_UPPER_RANGE: int := 8
  const LUMA_RED_BLUE_LOWER_RANGE: int := -9

  /** The number of channels of the encoder's pixel type. */
  function Channels(hasAlpha: bool): nat
  {
    if hasAlpha then 4 else 3
  }

  predicate ValidPixel(p: Pixel, hasAlpha: bool)
  {
    |p| == Channels(hasAlpha)
  }

  function Blue<T>(p: seq<T>): T requires |p| >= 3 { p[0] }
  function Green<T>(p: seq<T>): T requires |p| >= 3 { p[1] }
  function Red<T>(p: seq<T>): T requires |p| >= 3 { p[2] }
  function Alpha<T>(p: seq<T>): T requires |p| >= 4 { p[3] }

  /** A pixel built from its channels; the alpha channel is kept only when the format has one. */
  function MakePixel(b: byte, g: byte, r: byte, a: byte, hasAlpha: bool): (p: Pixel)
    ensures ValidPixel(p, hasAlpha)
    ensures Blue(p) == b && Green(p) == g && Red(p) == r
    ensures hasAlpha ==> Alpha(p) == a
  {
    if hasAlpha then [b, g, r, a] else [b, g, r]
  }

  /**
   * Storing an `int` into an `int8_t`: the value in [-128, 127] that is
   * congruent to `x` modulo 256.
   */
  function ToInt8(x: int): (r: sbyte)
    ensures (x - r) % 256 == 0
    ensures -128 <= x < 128 ==> r == x
  {
    (x + 128) % 256 - 128
  }

  /**
   * `current - previous`, channel by channel, each difference stored into an
   * `int8_t` (wrap-around modulo 256 is part of the format).
   */
  function Delta(cur: Pixel, prev: Pixel): (dp: SignedPixel)
    requires |cur| == |prev| && (|cur| == 3 || |cur| == 4)
    ensures |dp| == |cur|
  {
    var d3 := [ToInt8(cur[0] as int - prev[0] as int), ToInt8(cur[1] as int - prev[1] as int),
               ToInt8(cur[2] as int - prev[2] as int)];
    if |cur| == 4 then d3 + [ToInt8(cur[3] as int - prev[3] as int)] else d3
  }

  /**
   * Each channel of the delta is the true difference modulo 256, and is zero
   * exactly where the channels agree.
   */
  lemma DeltaChannels(cur: Pixel, prev: Pixel)
    requires |cur| == |prev| && (|cur| == 3 || |cur| == 4)
    ensures var dp := Delta(cur, prev);
      && (forall i | 0 <= i < |dp| :: (cur[i] as int - prev[i] as int - dp[i] as int) % 256 == 0)
      && (forall i | 0 <= i < |dp| :: dp[i] == 0 <==> cur[i] == prev[i])
  {
  }

  /** `util::less`: blue, green and red are all below `right`. */
  predicate Less(left: SignedPixel, right: int)
    requires |left| >= 3
    ensures Less(left, right) <==> forall i | 0 <= i < 3 :: left[i] < right
  {
    Blue(left) < right && Green(left) < right && Red(left) < right
  }

  /** `util::greater`: blue, green and red are all above `right`. */
  predicate Greater(left: SignedPixel, right: int)
    requires |left| >= 3
    ensures Greater(left, right) <==> forall i | 0 <= i < 3 :: left[i] > right
  {
    Blue(left) > right && Green(left) > right && Red(left) > right
  }

  /** `util::isInDiffRange`: the delta fits a Diff chunk, whose 2-bit fields hold each colour delta plus 2. */
  predicate IsInDiffRange(dp: SignedPixel)
    requires |dp| >= 3
    ensures IsInDiffRange(dp) ==> forall i | 0 <= i < 3 :: 0 <= dp[i] + 2 < 4
  {
    Less(dp, DIFF_UPPER_RANGE) && Greater(dp, DIFF_LOWER_RANGE)
  }

  /** The Diff range test accepts exactly the deltas whose colour channels lie in [-2, 1]. */
  lemma DiffRange(dp: SignedPixel)
    requires |dp| >= 3
    ensures IsInDiffRange(dp) <==> forall i | 0 <= i < 3 :: -2 <= dp[i] <= 1
  {
  }

  /**
   * `util::isInLumaRange`: whether the delta fits a Luma chunk, together with
   * the out-parameter `lumaDp` (blue and red relative to green, stored into
   * `int8_t`; a zero-initialised vector when the green test already fails).
   * On success the biased out-parameter fits the Luma fields: 6 bits for
   * green plus 32, 4 bits each for blue and red plus 8.
   */
  function IsInLumaRange(dp: SignedPixel): (r: (bool, SignedPixel))
    requires |dp| == 3 || |dp| == 4
    ensures |r.1| == |dp|
    ensures r.0 ==> 0 <= Green(r.1) + 32 < 64 && 0 <= Blue(r.1) + 8 < 16 && 0 <= Red(r.1) + 8 < 16
  {
    var zeros: SignedPixel := if |dp| == 4 then [0, 0, 0, 0] else [0, 0, 0];
    var dgInRange := Green(dp) < LUMA_GREEN_UPPER_RANGE && Green(dp) > LUMA_GREEN_LOWER_RANGE;
    if dgInRange then
      var lumaDp := zeros[1 := Green(dp)][0 := ToInt8(Blue(dp) as int - Green(dp) as int)][2 := ToInt8(Red(dp) as int - Green(dp) as int)];
      var drDgInRange := Red(lumaDp) < LUMA_RED_BLUE_UPPER_RANGE && Red(lumaDp) > LUMA_RED_BLUE_LOWER_RANGE;
      var dbDgInRange := Blue(lumaDp) < LUMA_RED_BLUE_UPPER_RANGE && Blue(lumaDp) > LUMA_RED_BLUE_LOWER_RANGE;
      (drDgInRange && dbDgInRange, lumaDp)
    else
      (false, zeros)
  }

  /**
   * The Luma range test: the stored relative differences wrap, yet the
   * answer is the one the unwrapped differences give, and on success the
   * out-parameter holds blue and red relative to green, the green delta, and
   * a zero alpha.
   */
  lemma LumaRange(dp: SignedPixel)
    requires |dp| == 3 || |dp| == 4
    ensures var r := IsInLumaRange(dp);
      && (r.0 <==> (-32 <= Green(dp) <= 31
                    && -8 <= Red(dp) as int - Green(dp) as int <= 7
                    && -8 <= Blue(dp) as int - Green(dp) as int <= 7))
      && (r.0 ==> (Blue(r.1) as int == Blue(dp) as int - Green(dp) as int
                   && Green(r.1) == Green(dp)
                   && Red(r.1) as int == Red(dp) as int - Green(dp) as int
                   && (|dp| == 4 ==> Alpha(r.1) == 0)))
  {
  }

  /**
   * `util::hash`: the colour-cache slot of a pixel, computed from its own
   * channels (alpha counts only when the pixel type has one).
   */
  function Hash(p: Pixel, hasAlpha: bool): (slot: nat)
    requires ValidPixel(p, hasAlpha)
    ensures slot < 64
  {
    var val := Blue(p) as int * 7 + Green(p) as int * 5 + Red(p) as int * 3;
    (if hasAlpha then val + Alpha(p) as int * 11 else val) % 64
  }

  /**
   * Adding back a difference that is congruent to `c - a` modulo 256 gives
   * `c` again, with `uint8_t` wrap-around.
   */
  lemma WrapBack(a: int, d: int, c: int)
    requires 0 <= c < 256 && (c - a - d) % 256 == 0
    ensures (a + d) % 256 == c
  {
    var k := (c - a - d) / 256;
    assert a + d == c - 256 * k;
  }
}
