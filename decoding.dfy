/**
 * A reader of QOI 1.0 streams, written from the format's definition rather
 * than from the encoder: a 64-entry index of four-channel pixels and the
 * previous pixel, both updated after every chunk. It is the reference the
 * encoder's output is proved against.
 */
module Decoding {
  import opened Options
  import opened Pixels
  import opened Format
  import opened Sequences

  /** The format's index position of a four-channel pixel: `(r*3 + g*5 + b*7 + a*11) % 64`. */
  function QoiHash(px: Pixel): (slot: nat)
    requires |px| == 4
    ensures slot < 64
  {
    (Red(px) as int * 3 + Green(px) as int * 5 + Blue(px) as int * 7 + Alpha(px) as int * 11) % 64
  }

  /** The reader's state: the index and the previous pixel. */
  datatype Decoder = Decoder(index: seq<Pixel>, px: Pixel)

  predicate Ready(d: Decoder)
  {
    && |d.index| == 64 && |d.px| == 4
    && forall k | 0 <= k < 64 :: |d.index[k]| == 4
  }

  /** The state a reader starts with: a zeroed index and the pixel (0, 0, 0, 255). */
  function DecInit(): (d: Decoder)
    ensures Ready(d)
  {
    Decoder(seq(64, _ => [0, 0, 0, 0]), [0, 0, 0, 255])
  }

  /** `n` copies of a pixel. */
  function Repeat(px: Pixel, n: nat): (r: seq<Pixel>)
    ensures |r| == n && forall i | 0 <= i < n :: r[i] == px
  {
    seq(n, _ => px)
  }

  /**
   * The pixels one chunk stands for and the state after it: an Index chunk
   * takes its pixel from the index, a Run repeats the previous pixel, the
   * others reconstruct it from the previous pixel; the pixel then enters the
   * index at its hash.
   */
  function Play(d: Decoder, op: Op): (r: (Decoder, seq<Pixel>))
    requires Ready(d) && WellFormed(op)
    ensures Ready(r.0)
    ensures r.0.index == d.index[QoiHash(r.0.px) := r.0.px]
    ensures r.1 == Repeat(r.0.px, if op.OpRun? then op.length else 1)
  {
    var px := match op
      case OpIndex(slot) => d.index[slot]
      case OpRun(_) => d.px
      case _ => Reconstruct(d.px, op);
    var count := if op.OpRun? then op.length else 1;
    (Decoder(d.index[QoiHash(px) := px], px), Repeat(px, count))
  }

  /**
   * Reading `s` as a sequence of whole chunks from state `d`: the state at
   * the end and the pixels, or None when `s` ends inside a chunk.
   */
  function DecodeChunks(d: Decoder, s: seq<byte>): (r: Option<(Decoder, seq<Pixel>)>)
    requires Ready(d)
    ensures r.Some? ==> Ready(r.value.0)
    ensures r.Some? ==> forall i | 0 <= i < |r.value.1| :: |r.value.1[i]| == 4
    decreases |s|
  {
    if |s| == 0 then Some((d, []))
    else
      match ReadChunk(s)
      case None => None
      case Some((op, len)) =>
        var (d1, q) := Play(d, op);
        match DecodeChunks(d1, s[len..])
        case None => None
        case Some((d2, rest)) => Some((d2, q + rest))
  }

  /**
   * Reading a concatenation: after a part made of whole chunks the reader
   * goes on from the state that part left, and the pixels concatenate.
   */
  lemma {:induction false} DecodeAppend(d: Decoder, a: seq<byte>, b: seq<byte>)
    requires Ready(d) && DecodeChunks(d, a).Some?
    ensures var (d1, p1) := DecodeChunks(d, a).value;
      && (DecodeChunks(d1, b).None? ==> DecodeChunks(d, a + b).None?)
      && (DecodeChunks(d1, b).Some? ==>
            DecodeChunks(d, a + b) == Some((DecodeChunks(d1, b).value.0, p1 + DecodeChunks(d1, b).value.1)))
    decreases |a|
  {
    if |a| == 0 {
      assert a + b == b;
      if DecodeChunks(d, b).Some? {
        assert [] + DecodeChunks(d, b).value.1 == DecodeChunks(d, b).value.1;
      }
    } else {
      var (op, len) := ReadChunk(a).value;
      ReadChunkPrefix(a, b);
      var (d1, q) := Play(d, op);
      assert (a + b)[len..] == a[len..] + b;
      DecodeAppend(d1, a[len..], b);
      var (d2, rest) := DecodeChunks(d1, a[len..]).value;
      if DecodeChunks(d2, b).Some? {
        AppendAssoc(q, rest, DecodeChunks(d2, b).value.1);
      }
    }
  }

  /** A pixel with the channel count the header declares: three-channel images drop alpha. */
  function Narrow(px: Pixel, channels: byte): (q: Pixel)
    requires |px| == 4
    ensures |q| == (if channels == 3 then 3 else 4)
  {
    if channels == 3 then px[..3] else px
  }

  /**
   * A whole stream: the header, the chunks and the end marker. The chunks
   * must fill the body exactly and give one pixel per position of the
   * declared image.
   */
  function DecodeImage(s: seq<byte>): Option<(Header, seq<Pixel>)>
  {
    if |s| < 22 then None
    else
      match ReadHeader(s[..14])
      case None => None
      case Some(h) =>
        if s[|s| - 8..] != EOS then None
        else
          match DecodeChunks(DecInit(), s[14..|s| - 8])
          case None => None
          case Some((_, pixels)) =>
            if |pixels| != h.width * h.height then None
            else Some((h, seq(|pixels|, i requires 0 <= i < |pixels| => Narrow(pixels[i], h.channels))))
  }
}
