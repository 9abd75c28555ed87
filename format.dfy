/**
 * The QOI 1.0 byte layout as a reader of the stream sees it: the tags, the
 * chunk that a byte sequence starts with, what a chunk does to the previous
 * pixel, and the 14-byte header. The encoder's builders are specified
 * against these definitions.
 */
module Format {
  import opened Options
  import opened Pixels

  const QOI_OP_INDEX: byte := 0x00
  const QOI_OP_DIFF: byte := 0x40
  const QOI_OP_LUMA: byte := 0x80
  const QOI_OP_RUN: byte := 0xC0
  const QOI_OP_RGB: byte := 0xFE
  const QOI_OP_RGBA: byte := 0xFF

  /** "qoif" */
  const MAGIC: seq<byte> := [0x71, 0x6F, 0x69, 0x66]
  /** The end-of-stream marker: seven zero bytes and a one. */
  const EOS: seq<byte> := [0, 0, 0, 0, 0, 0, 0, 1]

  const MAX_U32: nat := 0xFFFF_FFFF

  /** One chunk, with its fields as true (unbiased) values. */
  datatype Op =
    | OpIndex(slot: int)
    | OpDiff(dr: int, dg: int, db: int)
    | OpLuma(dg: int, drg: int, dbg: int)
    | OpRun(length: int)
    | OpRgb(r: byte, g: byte, b: byte)
    | OpRgba(r: byte, g: byte, b: byte, a: byte)

  /** The field ranges the layout can carry. */
  predicate WellFormed(op: Op)
  {
    match op
    case OpIndex(slot) => 0 <= slot < 64
    case OpDiff(dr, dg, db) => -2 <= dr <= 1 && -2 <= dg <= 1 && -2 <= db <= 1
    case OpLuma(dg, drg, dbg) => -32 <= dg <= 31 && -8 <= drg <= 7 && -8 <= dbg <= 7
    case OpRun(length) => 1 <= length <= 62
    case _ => true
  }

  /**
   * The chunk at the start of `s` and the number of bytes it occupies, or
   * None when `s` is empty or ends inside a chunk. The two 8-bit tags are
   * tested before the 2-bit ones.
   */
  function ReadChunk(s: seq<byte>): (r: Option<(Op, nat)>)
    ensures r.Some? ==> 1 <= r.value.1 <= |s| && WellFormed(r.value.0)
  {
    if |s| == 0 then None
    else
      var b1 := s[0];
      if b1 == QOI_OP_RGB then
        if |s| >= 4 then Some((OpRgb(s[1], s[2], s[3]), 4)) else None
      else if b1 == QOI_OP_RGBA then
        if |s| >= 5 then Some((OpRgba(s[1], s[2], s[3], s[4]), 5)) else None
      else if b1 < QOI_OP_DIFF then
        Some((OpIndex(b1 as int), 1))
      else if b1 < QOI_OP_LUMA then
        Some((OpDiff(b1 / 16 % 4 - 2, b1 / 4 % 4 - 2, b1 % 4 - 2), 1))
      else if b1 < QOI_OP_RUN then
        if |s| >= 2 then Some((OpLuma(b1 as int % 64 - 32, s[1] as int / 16 - 8, s[1] as int % 16 - 8), 2)) else None
      else
        Some((OpRun(b1 % 64 + 1), 1))
  }

  /** Reading a chunk looks at its own bytes only. */
  lemma ReadChunkPrefix(s: seq<byte>, t: seq<byte>)
    requires ReadChunk(s).Some?
    ensures ReadChunk(s + t) == ReadChunk(s)
  {
    assert (s + t)[0] == s[0];
    if |s| >= 2 { assert (s + t)[1] == s[1]; }
    if |s| >= 4 { assert (s + t)[2] == s[2] && (s + t)[3] == s[3]; }
    if |s| >= 5 { assert (s + t)[4] == s[4]; }
  }

  /**
   * The pixel a Diff, Luma, RGB or RGBA chunk reconstructs from the previous
   * pixel `px` (always four channels on the reading side; channel arithmetic
   * wraps modulo 256). Index and Run chunks take their pixel from elsewhere.
   */
  function Reconstruct(px: Pixel, op: Op): (q: Pixel)
    requires |px| == 4
    requires op.OpDiff? || op.OpLuma? || op.OpRgb? || op.OpRgba?
    ensures |q| == 4
  {
    match op
    case OpDiff(dr, dg, db) =>
      [(px[0] + db) % 256, (px[1] + dg) % 256, (px[2] + dr) % 256, px[3]]
    case OpLuma(dg, drg, dbg) =>
      [(px[0] + dg + dbg) % 256, (px[1] + dg) % 256, (px[2] + dg + drg) % 256, px[3]]
    case OpRgb(r, g, b) => [b, g, r, px[3]]
    case OpRgba(r, g, b, a) => [b, g, r, a]
  }

  /** A big-endian unsigned 32-bit field. */
  function ReadU32(s: seq<byte>): nat
    requires |s| == 4
  {
    s[0] as int * 0x100_0000 + s[1] as int * 0x1_0000 + s[2] as int * 0x100 + s[3] as int
  }

  datatype Header = Header(width: nat, height: nat, channels: byte, colorspace: byte)

  /** The 14-byte header, or None when the magic bytes are missing. */
  function ReadHeader(s: seq<byte>): Option<Header>
    requires |s| == 14
  {
    if s[..4] != MAGIC then None
    else Some(Header(ReadU32(s[4..8]), ReadU32(s[8..12]), s[12], s[13]))
  }

  /**
   * The four-channel pixel a reader works with: a three-channel pixel gets
   * alpha 255, since the channel count in the header does not change how
   * chunks are read.
   */
  function ToRgba(p: Pixel): (q: Pixel)
    requires |p| == 3 || |p| == 4
    ensures |q| == 4 && q[0] == p[0] && q[1] == p[1] && q[2] == p[2]
    ensures |p| == 4 ==> q == p
    ensures |p| == 3 ==> q[3] == 255
  {
    if |p| == 4 then p else p + [255]
  }
}
