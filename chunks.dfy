/**
 * The encoder's chunk builders and the header bytes, each specified by what
 * a reader of the stream gets back from it.
 */
module Chunks {
  import opened Options
  import opened Pixels
  import opened Format

  const RUN_UPPER_LIMIT: nat := 62
  const RUN_BIAS: nat := 1
  const DIFF_BIAS: int := 2
  const LUMA_GREEN_BIAS: int := 32
  const LUMA_RED_BLUE_BIAS: int := 8
  /** The colorspace byte the encoder always writes. */
  const COLORSPACE: byte := 1

  /** `indexChunk`: the single byte `0x00 | idx`. */
  function IndexChunk(idx: nat): (r: seq<byte>)
    requires idx < 64
    ensures |r| == 1
    ensures QOI_OP_INDEX <= r[0] < QOI_OP_DIFF && r[0] - QOI_OP_INDEX == idx
  {
    var b: byte := QOI_OP_INDEX + idx;
    [b]
  }

  /**
   * `diffChunk`: `dp` holds the biased deltas (true delta + 2), so each field
   * takes two bits: `0x40 | red << 4 | green << 2 | blue`.
   */
  function DiffChunk(dp: Pixel): (r: seq<byte>)
    requires |dp| == 3 || |dp| == 4
    requires Red(dp) < 4 && Blue(dp) < 4 && Green(dp) < 4
    requires |dp| == 4 ==> Alpha(dp) == 0
    ensures |r| == 1
    ensures QOI_OP_DIFF <= r[0] < QOI_OP_LUMA
  {
    var b: byte := QOI_OP_DIFF + Red(dp) * 16 + Green(dp) * 4 + Blue(dp);
    [b]
  }

  /**
   * `lumaChunk`: `dp` holds the biased green delta (+32) and the biased
   * red-minus-green and blue-minus-green deltas (+8):
   * `0x80 | green`, then `red << 4 | blue`.
   */
  function LumaChunk(dp: Pixel): (r: seq<byte>)
    requires |dp| == 3 || |dp| == 4
    requires Red(dp) < 16 && Blue(dp) < 16 && Green(dp) < 64
    requires |dp| == 4 ==> Alpha(dp) == 0
    ensures |r| == 2
    ensures QOI_OP_LUMA <= r[0] < QOI_OP_RUN && r[0] - QOI_OP_LUMA == Green(dp)
  {
    var b0: byte := QOI_OP_LUMA + Green(dp);
    var b1: byte := Red(dp) * 16 + Blue(dp);
    [b0, b1]
  }

  /**
   * `runChunk`: `0xC0 | count`, where `count` is the run length minus the
   * bias. The source admits counts up to 62, but only counts up to 61 read
   * back as a run: 62 would give the RGB tag 0xFE.
   */
  function RunChunk(count: nat): (r: seq<byte>)
    requires count < 63
    ensures |r| == 1
    ensures QOI_OP_RUN <= r[0] && r[0] - QOI_OP_RUN == count
  {
    var b: byte := QOI_OP_RUN + count;
    [b]
  }

  /** `rgbChunk`: the tag 0xFE, then red, green and blue literally. */
  function RgbChunk(p: Pixel): (r: seq<byte>)
    requires |p| == 3 || |p| == 4
    ensures |r| == 4 && r[0] == QOI_OP_RGB
    ensures r[1] == Red(p) && r[2] == Green(p) && r[3] == Blue(p)
  {
    [QOI_OP_RGB, Red(p), Green(p), Blue(p)]
  }

  /** `rgbaChunk`: the tag 0xFF, then red, green, blue and alpha literally. */
  function RgbaChunk(p: Pixel): (r: seq<byte>)
    requires |p| == 4
    ensures |r| == 5 && r[0] == QOI_OP_RGBA
    ensures r[1] == Red(p) && r[2] == Green(p) && r[3] == Blue(p) && r[4] == Alpha(p)
  {
    [QOI_OP_RGBA, Red(p), Green(p), Blue(p), Alpha(p)]
  }

  /** An Index chunk reads back as the slot it names. */
  lemma IndexChunkReads(idx: nat)
    requires idx < 64
    ensures ReadChunk(IndexChunk(idx)) == Some((OpIndex(idx), 1))
  {
  }

  /** A Diff chunk reads back as the unbiased deltas. */
  lemma DiffChunkReads(dp: Pixel)
    requires |dp| == 3 || |dp| == 4
    requires Red(dp) < 4 && Blue(dp) < 4 && Green(dp) < 4
    requires |dp| == 4 ==> Alpha(dp) == 0
    ensures ReadChunk(DiffChunk(dp))
              == Some((OpDiff(Red(dp) as int - 2, Green(dp) as int - 2, Blue(dp) as int - 2), 1))
  {
    var r, g, bl := Red(dp) as int, Green(dp) as int, Blue(dp) as int;
    var b := DiffChunk(dp)[0] as int;
    assert b == 64 + r * 16 + g * 4 + bl;
    assert b / 16 == 4 + r && b / 4 == 16 + r * 4 + g && b % 4 == bl;
  }

  /** A Luma chunk reads back as the unbiased green delta and the red and blue deltas relative to it. */
  lemma LumaChunkReads(dp: Pixel)
    requires |dp| == 3 || |dp| == 4
    requires Red(dp) < 16 && Blue(dp) < 16 && Green(dp) < 64
    requires |dp| == 4 ==> Alpha(dp) == 0
    ensures ReadChunk(LumaChunk(dp))
              == Some((OpLuma(Green(dp) as int - 32, Red(dp) as int - 8, Blue(dp) as int - 8), 2))
  {
  }

  /**
   * A Run chunk carries the 2-bit Run tag; it reads back as a run of
   * `count + 1` pixels exactly when `count` is below 62, since 62 gives the
   * RGB tag.
   */
  lemma RunChunkReads(count: nat)
    requires count < 63
    ensures RunChunk(count)[0] / 64 == 3
    ensures count < 62 ==> ReadChunk(RunChunk(count)) == Some((OpRun(count + 1), 1))
    ensures count == 62 ==> RunChunk(count)[0] == QOI_OP_RGB
  {
  }

  /** An RGB chunk reads back as the pixel's colour channels. */
  lemma RgbChunkReads(p: Pixel)
    requires |p| == 3 || |p| == 4
    ensures ReadChunk(RgbChunk(p)) == Some((OpRgb(Red(p), Green(p), Blue(p)), 4))
  {
  }

  /** An RGBA chunk reads back as all four channels of the pixel. */
  lemma RgbaChunkReads(p: Pixel)
    requires |p| == 4
    ensures ReadChunk(RgbaChunk(p)) == Some((OpRgba(Red(p), Green(p), Blue(p), Alpha(p)), 5))
  {
  }

  /** A 32-bit unsigned value in big-endian byte order. */
  function U32Bytes(x: nat): (r: seq<byte>)
    requires x <= MAX_U32
    ensures |r| == 4 && ReadU32(r) == x
  {
    var q1 := x / 0x100;
    var q2 := q1 / 0x100;
    var b0: byte := q2 / 0x100;
    var b1: byte := q2 % 0x100;
    var b2: byte := q1 % 0x100;
    var b3: byte := x % 0x100;
    assert x == q1 * 0x100 + b3 && q1 == q2 * 0x100 + b2 && q2 == b0 * 0x100 + b1;
    [b0, b1, b2, b3]
  }

  /**
   * The bytes `header` writes: magic, width (the column count), height (the
   * row count), channel count and colorspace 1.
   */
  function HeaderBytes(rows: nat, cols: nat, hasAlpha: bool): (r: seq<byte>)
    requires rows <= MAX_U32 && cols <= MAX_U32
    ensures |r| == 14
    ensures ReadHeader(r) == Some(Header(cols, rows, Channels(hasAlpha), COLORSPACE))
  {
    var channels: byte := Channels(hasAlpha);
    var r := MAGIC + U32Bytes(cols) + U32Bytes(rows) + [channels, COLORSPACE];
    assert r[..4] == MAGIC && r[4..8] == U32Bytes(cols) && r[8..12] == U32Bytes(rows);
    r
  }
}
