/**
 * The encoder's output read back by the format's reader. With alpha the
 * stream decodes to the image. Without alpha the encoder's hash leaves out
 * the alpha term the format's index position has, so an Index chunk can
 * name a slot the reader filled differently; encoding three-channel pixels
 * as four-channel ones with alpha 255 (EncodeStandard) restores the round
 * trip.
 */
module RoundTrip {
  import opened Options
  import opened Pixels
  import opened Format
  import opened Chunks
  import opened Encoding
  import opened Properties
  import opened Decoding
  import opened Sequences

  /** With alpha, the encoder's cache slot is the format's index position. */
  lemma HashIsQoiHash(p: Pixel)
    requires |p| == 4
    ensures Hash(p, true) == QoiHash(p)
  {
  }

  /**
   * What the reader knows after the chunks of a scan prefix: its previous
   * pixel is the encoder's; each slot holds what the encoder's cache holds,
   * except slots other than 0 that the encoder never wrote; and the previous
   * pixel sits in its own slot, unless it is still the initial pixel and that
   * slot is unwritten.
   */
  predicate Agrees(st: State, d: Decoder)
    requires Consistent(st, true) && Ready(d)
  {
    && d.px == st.prev
    && (forall k | 0 <= k < 64 :: d.index[k] == st.cache[k] || (k != 0 && st.cache[k] == Zero(true)))
    && var h := Hash(st.prev, true);
       (st.cache[h] == st.prev || (st.prev == InitPrev(true) && st.cache[h] == Zero(true)))
  }

  lemma InitAgrees()
    ensures Agrees(Init(true), DecInit())
  {
    var st, d := Init(true), DecInit();
    forall k | 0 <= k < 64
      ensures d.index[k] == st.cache[k]
    {
      assert d.index[k] == [0, 0, 0, 0] && st.cache[k] == Zero(true);
    }
  }

  /** A Run chunk read against an agreeing state repeats the encoder's previous pixel and keeps the agreement. */
  lemma RunAgrees(st: State, d: Decoder, length: int)
    requires Consistent(st, true) && Ready(d) && Agrees(st, d) && 1 <= length <= 62
    ensures var r := Play(d, OpRun(length));
      Agrees(st, r.0) && r.1 == Repeat(st.prev, length)
  {
    var r := Play(d, OpRun(length));
    HashIsQoiHash(st.prev);
    var h := Hash(st.prev, true);
    assert r.0.index == d.index[h := st.prev];
    forall k | 0 <= k < 64
      ensures r.0.index[k] == st.cache[k] || (k != 0 && st.cache[k] == Zero(true))
    {
      if k == h && st.cache[h] != st.prev {
        assert st.prev == InitPrev(true);
      }
    }
  }

  /** A single chunk read by itself: the pixels it stands for and the state after it. */
  lemma DecodeOne(d: Decoder, s: seq<byte>)
    requires Ready(d) && ReadChunk(s).Some? && ReadChunk(s).value.1 == |s|
    ensures DecodeChunks(d, s) == Some(Play(d, ReadChunk(s).value.0))
  {
    var (op, len) := ReadChunk(s).value;
    var (d1, q) := Play(d, op);
    assert s[len..] == [];
    assert q + [] == q;
  }

  /** The pending run, read against an agreeing state, gives that many copies of the previous pixel. */
  lemma PendingDecodes(st: State, d: Decoder)
    requires Consistent(st, true) && Ready(d) && Agrees(st, d)
    ensures var dec := DecodeChunks(d, PendingRun(st.run));
      dec.Some? && Agrees(st, dec.value.0) && dec.value.1 == Repeat(st.prev, st.run)
  {
    PendingRunReads(st.run);
    if st.run > 0 {
      DecodeOne(d, PendingRun(st.run));
      RunAgrees(st, d, st.run);
    } else {
      assert Repeat(st.prev, 0) == [];
    }
  }

  /**
   * The chunk written for a pixel that differs from the previous one, read
   * against an agreeing state, gives the pixel, and the reader agrees with
   * the encoder's new state.
   */
  lemma ChunkDecodes(st: State, d: Decoder, p: Pixel, isLast: bool)
    requires Consistent(st, true) && ValidPixel(p, true) && p != st.prev
    requires Ready(d) && Agrees(st, d)
    ensures var r := Step(st, p, isLast, true);
      var dec := DecodeChunks(d, r.1[|PendingRun(st.run)|..]);
      dec.Some? && Agrees(r.0, dec.value.0) && dec.value.1 == [p]
  {
    var r := Step(st, p, isLast, true);
    var chunk := r.1[|PendingRun(st.run)|..];
    var slot := Hash(p, true);
    StepNew(st, p, isLast, true);
    StepCache(st, p, isLast, true);
    var op := ReadChunk(chunk).value.0;
    DecodeOne(d, chunk);
    if st.cache[slot] == p {
      assert op == OpIndex(slot);
      assert d.index[slot] == p;
    } else {
      LiteralReads(p, st.prev, true);
      assert Reconstruct(d.px, op) == p;
    }
    var d1 := Play(d, op).0;
    assert d1.px == p;
    HashIsQoiHash(p);
    assert d1.index == d.index[slot := p];
    forall k | 0 <= k < 64
      ensures d1.index[k] == r.0.cache[k] || (k != 0 && r.0.cache[k] == Zero(true))
    {
      if k != slot {
        assert d1.index[k] == d.index[k] && r.0.cache[k] == st.cache[k];
      }
    }
  }

  /**
   * One pixel of the scan, read back: with the run finished the reader
   * produces the pending run and the pixel; while the run is counting it
   * produces nothing. The agreement carries over.
   */
  lemma StepDecodes(st: State, d: Decoder, p: Pixel, isLast: bool)
    requires Consistent(st, true) && ValidPixel(p, true) && Ready(d) && Agrees(st, d)
    ensures var r := Step(st, p, isLast, true);
      var dec := DecodeChunks(d, r.1);
      && dec.Some? && Agrees(r.0, dec.value.0)
      && (r.0.run == 0 ==> dec.value.1 == Repeat(st.prev, st.run) + [p])
      && (r.0.run != 0 ==> dec.value.1 == [] && r.0.run == st.run + 1 && p == st.prev)
  {
    var r := Step(st, p, isLast, true);
    if p == st.prev {
      StepRepeat(st, p, isLast, true);
      if r.0.run == 0 {
        DecodeOne(d, r.1);
        RunAgrees(st, d, st.run + 1);
        assert Repeat(st.prev, st.run + 1) == Repeat(st.prev, st.run) + [p];
      }
    } else {
      StepNew(st, p, isLast, true);
      var pending := PendingRun(st.run);
      PendingDecodes(st, d);
      var d1 := DecodeChunks(d, pending).value.0;
      ChunkDecodes(st, d1, p, isLast);
      DecodeAppend(d, pending, r.1[|pending|..]);
      assert pending + r.1[|pending|..] == r.1;
    }
  }

  /** The prefix of `ps` before a run of equal pixels, the run, and the pixel after it. */
  lemma PrefixExtend(ps: seq<Pixel>, m: nat, run: nat, px: Pixel)
    requires m + run < |ps|
    requires forall i | m <= i < m + run :: ps[i] == px
    ensures ps[..m] + Repeat(px, run) + [ps[m + run]] == ps[..m + run + 1]
  {
  }

  /**
   * What the reader has after the chunks of a scan prefix: its state `d`
   * agrees with the encoder's state `st` and the pixels it produced are the
   * first `n - st.run` pixels; the pending run is made of copies of the
   * previous pixel.
   */
  predicate ReadBack(ps: seq<Pixel>, n: nat, st: State, d: Decoder, decoded: seq<Pixel>)
    requires AllValid(ps, true) && n <= |ps| && Consistent(st, true) && Ready(d)
  {
    && Agrees(st, d)
    && st.run <= n && decoded == ps[..n - st.run]
    && (n > 0 ==> st.prev == ps[n - 1])
    && forall i | n - st.run <= i < n :: ps[i] == st.prev
  }

  /**
   * Pixels that, read after a scan prefix, are the pending run and the next
   * pixel (or nothing while the run goes on) extend what the reader has by
   * one pixel.
   */
  lemma ReadBackExtend(ps: seq<Pixel>, n: nat, st: State, d: Decoder, decoded: seq<Pixel>,
                       st': State, d': Decoder, q: seq<Pixel>)
    requires AllValid(ps, true) && n < |ps| && Consistent(st, true) && Consistent(st', true)
    requires Ready(d) && Ready(d') && ReadBack(ps, n, st, d, decoded)
    requires st'.prev == ps[n] && Agrees(st', d')
    requires st'.run == 0 ==> q == Repeat(st.prev, st.run) + [ps[n]]
    requires st'.run != 0 ==> q == [] && st'.run == st.run + 1 && ps[n] == st.prev
    ensures ReadBack(ps, n + 1, st', d', decoded + q)
  {
    PrefixGrows(ps, n, st.run, st'.run, st.prev, q);
  }

  /** The decoded prefix after one more pixel, from the pending run and what the new chunks gave. */
  lemma PrefixGrows(ps: seq<Pixel>, n: nat, run: nat, run': nat, prev: Pixel, q: seq<Pixel>)
    requires n < |ps| && run <= n
    requires forall i | n - run <= i < n :: ps[i] == prev
    requires run' == 0 ==> q == Repeat(prev, run) + [ps[n]]
    requires run' != 0 ==> q == [] && run' == run + 1
    ensures run' <= n + 1 && ps[..n - run] + q == ps[..n + 1 - run']
  {
    if run' == 0 {
      PrefixExtend(ps, n - run, run, prev);
    } else {
      assert ps[..n - run] + [] == ps[..n + 1 - run'];
    }
  }

  /** One more pixel of the scan keeps what the reader has in step with the encoder. */
  lemma ReadBackNext(ps: seq<Pixel>, n: nat, st: State, out: seq<byte>)
    requires AllValid(ps, true) && n < |ps| && Consistent(st, true)
    requires var dec := DecodeChunks(DecInit(), out);
      dec.Some? && ReadBack(ps, n, st, dec.value.0, dec.value.1)
    ensures var next := Step(st, ps[n], n + 1 == |ps|, true);
      var dec := DecodeChunks(DecInit(), out + next.1);
      dec.Some? && ReadBack(ps, n + 1, next.0, dec.value.0, dec.value.1)
  {
    var (d, decoded) := DecodeChunks(DecInit(), out).value;
    var next := Step(st, ps[n], n + 1 == |ps|, true);
    StepDecodes(st, d, ps[n], n + 1 == |ps|);
    StepCache(st, ps[n], n + 1 == |ps|, true);
    var (d', q) := DecodeChunks(d, next.1).value;
    DecodeAppend(DecInit(), out, next.1);
    ReadBackExtend(ps, n, st, d, decoded, next.0, d', q);
  }

  /**
   * The chunks of a scan prefix from the fresh state decode to the pixels
   * scanned so far except the pending run, and the reader agrees with the
   * encoder.
   */
  lemma {:induction false} ScanDecodes(ps: seq<Pixel>, n: nat)
    requires AllValid(ps, true) && n <= |ps|
    ensures var r := Scan(Init(true), ps, n, true);
      var dec := DecodeChunks(DecInit(), r.1);
      dec.Some? && ReadBack(ps, n, r.0, dec.value.0, dec.value.1)
  {
    if n == 0 {
      InitAgrees();
    } else {
      ScanDecodes(ps, n - 1);
      ScanNext(Init(true), ps, n - 1, true);
      var r := Scan(Init(true), ps, n - 1, true);
      ReadBackNext(ps, n - 1, r.0, r.1);
    }
  }

  /**
   * A header and the chunks of a whole four-channel scan, closed by the end
   * marker, decode to the scanned pixels with the header's channel count.
   */
  lemma DecodeFramed(rows: nat, cols: nat, ps: seq<Pixel>, headerAlpha: bool)
    requires rows <= MAX_U32 && cols <= MAX_U32 && |ps| == rows * cols && AllValid(ps, true)
    ensures var channels: byte := Channels(headerAlpha);
      DecodeImage(HeaderBytes(rows, cols, headerAlpha) + Scan(Init(true), ps, |ps|, true).1 + EOS)
        == Some((Header(cols, rows, channels, COLORSPACE),
                 seq(|ps|, i requires 0 <= i < |ps| => Narrow(ps[i], channels))))
  {
    var header := HeaderBytes(rows, cols, headerAlpha);
    var body := Scan(Init(true), ps, |ps|, true).1;
    var s := header + body + EOS;
    assert s[..14] == header && s[|s| - 8..] == EOS && s[14..|s| - 8] == body;
    ScanDecodes(ps, |ps|);
    assert ps[..|ps|] == ps;
  }

  /** With alpha, the reader gets back exactly the image the encoder was given. */
  lemma RoundTripRgba(rows: nat, cols: nat, pixels: seq<Pixel>)
    requires rows <= MAX_U32 && cols <= MAX_U32 && |pixels| == rows * cols && AllValid(pixels, true)
    ensures DecodeImage(EncodeStream(rows, cols, pixels, true)) == Some((Header(cols, rows, 4, COLORSPACE), pixels))
  {
    DecodeFramed(rows, cols, pixels, true);
    assert seq(|pixels|, i requires 0 <= i < |pixels| => Narrow(pixels[i], 4)) == pixels;
  }

  /** Three-channel pixels as the format's reader sees them: alpha 255. */
  function Widen(ps: seq<Pixel>): (r: seq<Pixel>)
    requires AllValid(ps, false)
    ensures |r| == |ps| && AllValid(r, true)
    ensures forall i | 0 <= i < |ps| :: r[i] == ToRgba(ps[i])
  {
    seq(|ps|, i requires 0 <= i < |ps| => ToRgba(ps[i]))
  }

  /**
   * The three-channel stream as the format intends it: the three-channel
   * header, and the chunks of the pixels taken with alpha 255, so that the
   * cache slots are the format's index positions.
   */
  function EncodeStandard(rows: nat, cols: nat, pixels: seq<Pixel>): seq<byte>
    requires rows <= MAX_U32 && cols <= MAX_U32 && |pixels| == rows * cols && AllValid(pixels, false)
  {
    HeaderBytes(rows, cols, false) + Scan(Init(true), Widen(pixels), |pixels|, true).1 + EOS
  }

  /** The corrected three-channel stream decodes to the image. */
  lemma RoundTripRgb(rows: nat, cols: nat, pixels: seq<Pixel>)
    requires rows <= MAX_U32 && cols <= MAX_U32 && |pixels| == rows * cols && AllValid(pixels, false)
    ensures DecodeImage(EncodeStandard(rows, cols, pixels)) == Some((Header(cols, rows, 3, COLORSPACE), pixels))
  {
    var wide := Widen(pixels);
    DecodeFramed(rows, cols, wide, false);
    assert seq(|wide|, i requires 0 <= i < |wide| => Narrow(wide[i], 3)) == pixels;
  }

  /**
   * A three-channel pixel taken with alpha 255 lands in the format's index
   * 53 positions after the encoder's slot for it, since the encoder leaves
   * out the term 255 * 11 = 2805, which is 53 modulo 64.
   */
  lemma WidenedHash(p: Pixel)
    requires ValidPixel(p, false)
    ensures QoiHash(ToRgba(p)) == (Hash(p, false) + 53) % 64
    ensures QoiHash(ToRgba(p)) != Hash(p, false)
  {
    var val := Blue(p) as int * 7 + Green(p) as int * 5 + Red(p) as int * 3;
    var h, k := val % 64, val / 64;
    assert QoiHash(ToRgba(p)) == (val + 2805) % 64;
    assert Hash(p, false) == h;
    if h < 11 {
      Remainder(val + 2805, k + 43, h + 53);
      Remainder(h + 53, 0, h + 53);
    } else {
      Remainder(val + 2805, k + 44, h - 11);
      Remainder(h + 53, 1, h - 11);
    }
  }

  /** The remainder modulo 64 is the one of any decomposition `64 * m + r` with `r` in [0, 64). */
  lemma Remainder(x: int, m: int, r: int)
    requires x == 64 * m + r && 0 <= r < 64
    ensures x % 64 == r
  {
  }

  /** A pixel that differs from the previous one and misses the cache, with no run pending. */
  lemma MissStep(st: State, p: Pixel, isLast: bool, hasAlpha: bool)
    requires Consistent(st, hasAlpha) && ValidPixel(p, hasAlpha) && st.run == 0
    requires p != st.prev && st.cache[Hash(p, hasAlpha)] != p
    ensures Step(st, p, isLast, hasAlpha)
      == (State(st.cache[Hash(p, hasAlpha) := p], p, 0), Literal(p, st.prev, hasAlpha))
  {
    assert PendingRun(0) + Literal(p, st.prev, hasAlpha) == Literal(p, st.prev, hasAlpha);
  }

  /** A pixel that differs from the previous one and hits the cache, with no run pending. */
  lemma HitStep(st: State, p: Pixel, isLast: bool, hasAlpha: bool)
    requires Consistent(st, hasAlpha) && ValidPixel(p, hasAlpha) && st.run == 0
    requires p != st.prev && st.cache[Hash(p, hasAlpha)] == p
    ensures Step(st, p, isLast, hasAlpha).1 == IndexChunk(Hash(p, hasAlpha))
  {
    assert PendingRun(0) + IndexChunk(Hash(p, hasAlpha)) == IndexChunk(Hash(p, hasAlpha));
  }

  /**
   * The chunks the three-channel encoder writes for the row A, B, A of two
   * distinct non-black pixels in different slots: a literal chunk for A, one
   * for B, and an Index chunk for the slot A went into.
   */
  lemma ThreeChannelChunks(a: Pixel, b: Pixel)
    requires ValidPixel(a, false) && ValidPixel(b, false)
    requires a != b && a != Zero(false) && b != Zero(false) && Hash(a, false) != Hash(b, false)
    ensures Scan(Init(false), [a, b, a], 3, false).1
      == Literal(a, Zero(false), false) + Literal(b, a, false) + IndexChunk(Hash(a, false))
  {
    var ps := [a, b, a];
    var st0 := Init(false);
    var c1, c2, c3 := Literal(a, Zero(false), false), Literal(b, a, false), IndexChunk(Hash(a, false));
    assert AllValid(ps, false);
    assert st0.prev == Zero(false) && st0.cache[Hash(a, false)] == Zero(false);
    MissStep(st0, a, false, false);
    var st1 := State(st0.cache[Hash(a, false) := a], a, 0);
    ScanNext(st0, ps, 0, false);
    assert Scan(st0, ps, 1, false) == (st1, c1);
    assert st1.cache[Hash(b, false)] == Zero(false);
    MissStep(st1, b, false, false);
    var st2 := State(st1.cache[Hash(b, false) := b], b, 0);
    ScanNext(st0, ps, 1, false);
    assert Scan(st0, ps, 2, false) == (st2, c1 + c2);
    assert st2.cache[Hash(a, false)] == a;
    HitStep(st2, a, true, false);
    ScanNext(st0, ps, 2, false);
  }

  /**
   * A literal chunk, read against a state whose previous pixel is the
   * widened `prev`, gives the widened `p`, which enters the index at its
   * format position.
   */
  lemma LiteralDecodes(d: Decoder, p: Pixel, prev: Pixel)
    requires Ready(d) && ValidPixel(p, false) && ValidPixel(prev, false) && d.px == ToRgba(prev)
    ensures var q := ToRgba(p);
      var dec := DecodeChunks(d, Literal(p, prev, false));
      && dec.Some? && dec.value.1 == [q]
      && dec.value.0.px == q && dec.value.0.index == d.index[QoiHash(q) := q]
  {
    var c := Literal(p, prev, false);
    LiteralReads(p, prev, false);
    DecodeOne(d, c);
  }

  /**
   * The two literal chunks give A and B back; the slot the encoder gave A
   * then holds B or the initial black, since A went to another position.
   */
  lemma TwoLiteralsRead(a: Pixel, b: Pixel)
    requires ValidPixel(a, false) && ValidPixel(b, false) && a != Zero(false)
    ensures var dec := DecodeChunks(DecInit(), Literal(a, Zero(false), false) + Literal(b, a, false));
      && dec.Some? && dec.value.1 == [ToRgba(a), ToRgba(b)]
      && var slot := dec.value.0.index[Hash(a, false)];
      slot == ToRgba(b) || slot == [0, 0, 0, 0]
  {
    var c1, c2 := Literal(a, Zero(false), false), Literal(b, a, false);
    var d0 := DecInit();
    var h := Hash(a, false);
    assert d0.px == ToRgba(Zero(false));
    LiteralDecodes(d0, a, Zero(false));
    var r1 := DecodeChunks(d0, c1).value;
    LiteralDecodes(r1.0, b, a);
    var r2 := DecodeChunks(r1.0, c2).value;
    DecodeAppend(d0, c1, c2);
    assert [ToRgba(a)] + [ToRgba(b)] == [ToRgba(a), ToRgba(b)];
    WidenedHash(a);
    assert r1.0.index[h] == d0.index[h];
  }

  /**
   * What the reader makes of those chunks: A and B come back, but the
   * Index chunk names a slot that holds B or the initial black, never A.
   */
  lemma ThreeChannelRead(a: Pixel, b: Pixel)
    requires ValidPixel(a, false) && ValidPixel(b, false)
    requires a != b && a != Zero(false) && b != Zero(false) && Hash(a, false) != Hash(b, false)
    ensures var dec := DecodeChunks(DecInit(), Literal(a, Zero(false), false) + Literal(b, a, false) + IndexChunk(Hash(a, false)));
      && dec.Some? && |dec.value.1| == 3
      && dec.value.1[0] == ToRgba(a) && dec.value.1[1] == ToRgba(b) && dec.value.1[2][..3] != a
  {
    var c12, c3 := Literal(a, Zero(false), false) + Literal(b, a, false), IndexChunk(Hash(a, false));
    var d0 := DecInit();
    var h := Hash(a, false);
    TwoLiteralsRead(a, b);
    var r2 := DecodeChunks(d0, c12).value;
    IndexChunkReads(h);
    DecodeOne(r2.0, c3);
    DecodeAppend(d0, c12, c3);
    var last := r2.0.index[h];
    assert DecodeChunks(d0, c12 + c3).value.1 == [ToRgba(a), ToRgba(b)] + [last];
    assert last[..3] != a by {
      if last == ToRgba(b) { assert ToRgba(b)[..3] == b; }
      else { assert last[..3] == Zero(false); }
    }
  }

  /**
   * The three-channel encoder as written does not round-trip: for the row
   * A, B, A of two distinct non-black pixels in different slots the reader
   * gets A and B back but not A as the last pixel (for instance blue 1,
   * then blue 2, then blue 1, in slots 7 and 14).
   */
  lemma ThreeChannelIndexMismatch(a: Pixel, b: Pixel)
    requires ValidPixel(a, false) && ValidPixel(b, false)
    requires a != b && a != Zero(false) && b != Zero(false) && Hash(a, false) != Hash(b, false)
    ensures var dec := DecodeImage(EncodeStream(1, 3, [a, b, a], false));
      && dec.Some? && dec.value.0 == Header(3, 1, 3, COLORSPACE) && |dec.value.1| == 3
      && dec.value.1[0] == a && dec.value.1[1] == b && dec.value.1[2] != a
  {
    var ps := [a, b, a];
    assert AllValid(ps, false);
    var body := Literal(a, Zero(false), false) + Literal(b, a, false) + IndexChunk(Hash(a, false));
    ThreeChannelChunks(a, b);
    ThreeChannelRead(a, b);
    var s := EncodeStream(1, 3, ps, false);
    assert s == HeaderBytes(1, 3, false) + body + EOS;
    assert s[..14] == HeaderBytes(1, 3, false) && s[14..|s| - 8] == body;
    var pixels := DecodeChunks(DecInit(), body).value.1;
    assert Narrow(pixels[0], 3) == a && Narrow(pixels[1], 3) == b;
  }

  /** The smallest instance: blue 1, blue 2, blue 1 hash to slots 7, 14, 7. */
  lemma ThreeChannelCounterexample()
    ensures var image: seq<Pixel> := [[1, 0, 0], [2, 0, 0], [1, 0, 0]];
      DecodeImage(EncodeStream(1, 3, image, false)) != Some((Header(3, 1, 3, COLORSPACE), image))
  {
    var a: Pixel, b: Pixel := [1, 0, 0], [2, 0, 0];
    assert Hash(a, false) == 7 && Hash(b, false) == 14;
    ThreeChannelIndexMismatch(a, b);
  }
}
