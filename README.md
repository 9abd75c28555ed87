# cvqoi encoder model

A Dafny model of the QOI ("Quite OK Image", format version 1.0) encoder of
cvqoi, `include/cvqoi/CVQoi.hpp`, with proofs about it.

The encoder turns a row-major grid of 8-bit pixels into a byte stream in one
forward pass. Pixels have 3 channels (blue, green, red) or 4 (with alpha).
The stream has three parts:

- a 14-byte header;
- zero, one or two chunks per pixel decision (Run, Index, Diff, Luma, RGB or RGBA);
- an 8-byte end marker.

The encoder keeps three pieces of state:

- a 64-slot colour cache, indexed by a hash of the pixel;
- the previous pixel;
- a run counter.

Modules, one file each:

- `pixels.dfy` (`Pixels`): pixels, `int8_t` deltas, the Diff/Luma range
  tests and the cache hash (the `util` struct).
- `format.dfy` (`Format`): the QOI 1.0 byte layout as a reader sees it. It
  holds the tags, the chunk a byte sequence starts with, what a chunk does to
  the previous pixel, and the header. The builders are specified against it.
- `chunks.dfy` (`Chunks`): the chunk builders, the big-endian 32-bit field
  and the header bytes.
- `encoding.dfy` (`Encoding`): the encoder twice over.
  - As values: `State`, the per-pixel `Step` and the row-major `Scan`.
  - As a `class Encoder`: the cache is an `array`, `prev` and `run` are
    fields, and the output stream is a `seq<byte>` field that the methods
    append to. Each method is proved to compute the value-level function.
- `properties.dfy` (`Properties`): what one pixel does and what the scan
  keeps. This covers the run rules, the cache rules, the chunk choice, the
  previous pixel and the absence of consecutive Index chunks for one slot.
- `decoding.dfy` (`Decoding`): a reader written from the QOI 1.0 format
  definition, not from this repository. It is the reference the round trip
  is proved against.
- `roundtrip.dfy` (`RoundTrip`): the four-channel stream decodes to the
  image, and the three-channel encoder as written does not round-trip (see
  Findings).
- `scenarios.dfy` (`Scenarios`): a worked example of grey pixels whose
  chunks can be read off by hand.
- `options.dfy` and `sequences.dfy`: an `Option` type and associativity of
  concatenation.

The row/column test `isLastPixel({r, c})` builds the point as (x, y) = (r, c).
So it holds exactly at r == rows-1 and c == cols-1, the last pixel in scan
order; `Encoding.RowMajor` proves it.

A pixel (5, 5, 5) after the initial black is written as the Luma chunk
`[0xA5, 0x88]`, not as a Diff chunk: a delta of 5 lies outside the Diff range
[-2, 1]. `Scenarios.RunThenLuma` proves the whole chunk stream for the
pixels (5, 5, 5), (5, 5, 5), (9, 9, 9).

## Model

| member | source | states |
|---|---|---|
| Pixels.Hash | include/cvqoi/CVQoi.hpp:144-150 | the slot `(b*7 + g*5 + r*3 [+ a*11]) % 64`, computed from the pixel's own channels, always lies in [0, 63] |
| Pixels.ToInt8 | include/cvqoi/CVQoi.hpp:259-263 | storing an `int` into `int8_t` keeps the value modulo 256 and leaves values in [-128, 127] unchanged |
| Pixels.Less | include/cvqoi/CVQoi.hpp:87-89 | `less` holds exactly when the blue, green and red channels are all below the bound; alpha is ignored |
| Pixels.Greater | include/cvqoi/CVQoi.hpp:91-93 | `greater` holds exactly when the blue, green and red channels are all above the bound; alpha is ignored |
| Pixels.IsInDiffRange | include/cvqoi/CVQoi.hpp:100-102 | a delta that passes the test has every colour channel plus the bias 2 in [0, 3], the width of a Diff field |
| Pixels.IsInLumaRange | include/cvqoi/CVQoi.hpp:104-120 | the out-parameter has one channel per channel of the delta; on success its biased green (+32) fits 6 bits and its biased blue and red (+8) fit 4 bits each |
| Pixels.Delta | include/cvqoi/CVQoi.hpp:258-264 | `dp` has one signed channel per channel of the pixels |
| Pixels.DeltaChannels | include/cvqoi/CVQoi.hpp:258-264 | each channel of `dp` is the true difference modulo 256, and is 0 exactly where the two pixels agree |
| Pixels.DiffRange | include/cvqoi/CVQoi.hpp:87-102 | `isInDiffRange` (via `less`/`greater` with the exclusive bounds 2 and -3) holds exactly when blue, green and red deltas lie in [-2, 1] |
| Pixels.LumaRange | include/cvqoi/CVQoi.hpp:104-120 | `isInLumaRange` holds exactly when dg is in [-32, 31] and dr-dg, db-dg are in [-8, 7] on the unwrapped values, although it computes the relative deltas in `int8_t`; on success `lumaDp` holds db-dg, dg, dr-dg |
| Chunks.IndexChunk | include/cvqoi/CVQoi.hpp:326-329 | one byte below the Diff tag, whose value above the Index tag 0x00 is the slot |
| Chunks.DiffChunk | include/cvqoi/CVQoi.hpp:331-339 | one byte between the Diff tag 0x40 and the Luma tag 0x80 |
| Chunks.LumaChunk | include/cvqoi/CVQoi.hpp:341-352 | two bytes; the first lies between the Luma tag 0x80 and the Run tag 0xC0 and carries the biased green delta above the tag |
| Chunks.RunChunk | include/cvqoi/CVQoi.hpp:354-357 | one byte at or above the Run tag 0xC0 whose value above the tag is the biased count |
| Chunks.RgbChunk | include/cvqoi/CVQoi.hpp:369-376 | four bytes: the RGB tag 0xFE, then red, green and blue of the pixel |
| Chunks.RgbaChunk | include/cvqoi/CVQoi.hpp:359-367 | five bytes: the RGBA tag 0xFF, then red, green, blue and alpha of the pixel |
| Chunks.IndexChunkReads | include/cvqoi/CVQoi.hpp:326-329 | `indexChunk(idx)` is the single byte `0x00 \| idx`, read as an Index chunk for slot idx |
| Chunks.DiffChunkReads | include/cvqoi/CVQoi.hpp:331-339 | `diffChunk` is one byte `0x40 \| r<<4 \| g<<2 \| b` of biased fields below 4, read as a Diff with the unbiased deltas |
| Chunks.LumaChunkReads | include/cvqoi/CVQoi.hpp:341-352 | `lumaChunk` is two bytes `0x80 \| (dg+32)`, `(dr-dg+8)<<4 \| (db-dg+8)`, read as a Luma with the unbiased fields |
| Chunks.RunChunkReads | include/cvqoi/CVQoi.hpp:354-357 | `runChunk` is `0xC0 \| count`; counts below 62 read as a run of count+1 pixels, and 62 would collide with the RGB tag |
| Chunks.RgbChunkReads | include/cvqoi/CVQoi.hpp:369-376 | `rgbChunk` is `[0xFE, r, g, b]`, read as those three channels |
| Chunks.RgbaChunkReads | include/cvqoi/CVQoi.hpp:359-367 | `rgbaChunk` is `[0xFF, r, g, b, a]`, read as all four channels |
| Chunks.U32Bytes | include/cvqoi/CVQoi.hpp:166-170 | a 32-bit value written big-endian is four bytes whose big-endian reading is the value |
| Chunks.HeaderBytes | include/cvqoi/CVQoi.hpp:202-215 | the header is 14 bytes: "qoif", width = column count, height = row count (big-endian), channel count, colorspace 1 |
| Encoding.Init | include/cvqoi/CVQoi.hpp:180-192 | the state of a fresh encoder is well formed: all 64 slots hold the zero pixel, the previous pixel is zero with alpha 255 (with alpha), and no run is pending |
| Encoding.DiffReconstructs | include/cvqoi/CVQoi.hpp:272-276 | applying the wrapped colour deltas to the previous pixel gives the pixel back |
| Encoding.LumaReconstructs | include/cvqoi/CVQoi.hpp:281-285 | applying dg and the wrapped relative deltas to the previous pixel gives the pixel back |
| Encoding.RgbReconstructs | include/cvqoi/CVQoi.hpp:290-291 | an RGB chunk gives the pixel back when alpha did not change |
| Encoding.DiffLiteral | include/cvqoi/CVQoi.hpp:272-276 | the Diff branch writes one byte carrying the Diff tag |
| Encoding.LumaLiteral | include/cvqoi/CVQoi.hpp:281-285 | the Luma branch writes two bytes carrying the Luma tag, the first holding the true green delta plus 32 above the tag |
| Encoding.Literal | include/cvqoi/CVQoi.hpp:258-298 | the literal chunk is 5 bytes when alpha changed, else 1 when the colour deltas fit [-2, 1], else 2 when they fit the Luma ranges, else 4 |
| Encoding.PendingRun | include/cvqoi/CVQoi.hpp:240-244 | no bytes when no run is pending, else one byte whose value above the Run tag is the run length minus 1 |
| Encoding.DiffLiteralReads | include/cvqoi/CVQoi.hpp:272-276 | the Diff branch writes one whole Diff chunk that reads back to the pixel |
| Encoding.LumaLiteralReads | include/cvqoi/CVQoi.hpp:281-285 | the Luma branch writes one whole Luma chunk that reads back to the pixel |
| Encoding.LiteralReads | include/cvqoi/CVQoi.hpp:258-298 | the selection order: RGBA exactly when alpha changed, else Diff exactly when the colour deltas fit [-2, 1], else Luma exactly when they fit the Luma ranges, else RGB; the chunk is whole and reads back to the pixel |
| Encoding.Step | include/cvqoi/CVQoi.hpp:228-299 | one pixel keeps the state well formed: 64 slots, a previous pixel of the right width, a run below 62 |
| Encoding.Scan | include/cvqoi/CVQoi.hpp:217-311 | after the whole image no run is pending |
| Encoding.EncodeStream | include/cvqoi/CVQoi.hpp:194-199 | the stream starts with a header reading back as (cols, rows, channels, 1) and ends with `00×7 01` |
| Encoding.IsLastPixel | include/cvqoi/CVQoi.hpp:317-319 | a position that passes the test lies inside the image |
| Encoding.RowMajor | include/cvqoi/CVQoi.hpp:317-319 | `isLastPixel({r, c})` holds exactly at the last position r*cols+c = rows*cols-1 of the scan |
| Encoding.Encoder.constructor | include/cvqoi/CVQoi.hpp:180-192 | the cache holds 64 zero pixels, the previous pixel is zero with alpha 255 (with alpha) and the run is 0 |
| Encoding.Encoder.IsSeenBefore | include/cvqoi/CVQoi.hpp:321-324 | returns the pixel's hash and whether that cache slot holds the pixel |
| Encoding.Encoder.WriteLiteral | include/cvqoi/CVQoi.hpp:258-296 | appends the literal chunk chosen for the pixel and the previous pixel |
| Encoding.Encoder.FlushRun | include/cvqoi/CVQoi.hpp:240-244 | appends the Run chunk for the pending run (length minus 1) and resets the counter |
| Encoding.Encoder.RepeatPixel | include/cvqoi/CVQoi.hpp:228-237 | the repeat branch changes the state and the stream exactly as `Step` does |
| Encoding.Encoder.NewPixel | include/cvqoi/CVQoi.hpp:239-298 | the branch for a differing pixel changes the cache, previous pixel, run and stream exactly as `Step` does |
| Encoding.Encoder.EncodePixel | include/cvqoi/CVQoi.hpp:228-299 | one iteration of the pixel loop is `Step` on the encoder's state |
| Encoding.Encoder.EncodeNext | include/cvqoi/CVQoi.hpp:220-230 | the iteration at scan position n takes the state and stream of the n-pixel scan to those of the n+1-pixel scan |
| Encoding.Encoder.EncodeRow | include/cvqoi/CVQoi.hpp:220-309 | the column loop extends the scan by one row, passing the last-pixel flag of each position |
| Encoding.Encoder.EncodeImage | include/cvqoi/CVQoi.hpp:217-311 | the nested loops leave the state and the appended chunks of `Scan` over the whole row-major image |
| Encoding.Encoder.Header | include/cvqoi/CVQoi.hpp:202-215 | dimensions beyond 32 bits are refused with nothing written; otherwise the 14 header bytes are appended (the source's `int` dimensions can never exceed 32 bits, so in the source the refusal never happens) |
| Encoding.Encoder.MarkEnd | include/cvqoi/CVQoi.hpp:313-315 | appends the end marker `00 00 00 00 00 00 00 01` |
| Encoding.Encoder.Encode | include/cvqoi/CVQoi.hpp:194-199 | `operator<<`: header, scanned chunks, end marker; on oversized dimensions nothing is written and the state is untouched |
| Encoding.EncodeFresh | include/cvqoi/CVQoi.hpp:180-199 | a freshly constructed encoder writes exactly `EncodeStream` of the image |
| Properties.StepRepeat | include/cvqoi/CVQoi.hpp:228-237 | a repeat only counts; the cache and previous pixel stay, and one Run chunk of the whole run is written exactly when the run reaches 62 or it is the last pixel |
| Properties.PendingRunReads | include/cvqoi/CVQoi.hpp:239-244 | a pending run is written as one Run chunk of its length, and an empty run writes nothing |
| Properties.StepNew | include/cvqoi/CVQoi.hpp:239-298 | a differing pixel writes the pending run, then one chunk, which is Index exactly on a cache hit; a hit leaves the cache, a miss stores the pixel in its slot and writes the literal chunk; prev becomes the pixel, run 0 |
| Properties.StepCache | include/cvqoi/CVQoi.hpp:246-256 | only the pixel's own slot can change; after a differing pixel it holds the pixel, and prev is always the pixel |
| Properties.StepSlotsHashed | include/cvqoi/CVQoi.hpp:255-256 | a step keeps every slot at its initial value or at a pixel that hashes to it |
| Properties.ScanSlotsHashed | include/cvqoi/CVQoi.hpp:217-311 | the whole scan keeps that cache invariant |
| Properties.InitSlotsHashed | include/cvqoi/CVQoi.hpp:185-191 | the initial cache satisfies the invariant |
| Properties.ScanPending | include/cvqoi/CVQoi.hpp:228-298 | after a scan prefix, prev is the last pixel scanned and the pending run is made of copies of it |
| Properties.NoConsecutiveIndex | include/cvqoi/CVQoi.hpp:300-306 | two consecutive pixels never both give an Index chunk for the same slot |
| Scenarios.GreyLuma | include/cvqoi/CVQoi.hpp:272-285 | a grey step of d in [2, 31] in every channel misses the Diff range and is the Luma chunk `0x80 \| (d+32)`, `0x88` |
| Scenarios.GreyPrefix | include/cvqoi/CVQoi.hpp:228-298 | grey g after the initial black is a Luma chunk and enters its slot; repeating it writes nothing and counts a run of 1 |
| Scenarios.GreyFlushLuma | include/cvqoi/CVQoi.hpp:239-285 | a grey step of d after that run writes the Run chunk `0xC0`, then the Luma chunk for d |
| Scenarios.GreyRunThenLuma | include/cvqoi/CVQoi.hpp:217-311 | the chunks of grey g, g, g+d are `0x80 \| (g+32)`, `0x88`, `0xC0`, `0x80 \| (d+32)`, `0x88` |
| Scenarios.RunThenLuma | include/cvqoi/CVQoi.hpp:217-311 | the chunks of (5,5,5), (5,5,5), (9,9,9) are `A5 88 C0 A4 88` |
| RoundTrip.HashIsQoiHash | include/cvqoi/CVQoi.hpp:144-150 | with alpha, the cache slot is the QOI 1.0 index position |
| RoundTrip.InitAgrees | include/cvqoi/CVQoi.hpp:185-191 | the fresh four-channel encoder agrees with a fresh QOI reader |
| RoundTrip.RunAgrees | include/cvqoi/CVQoi.hpp:228-237 | a Run chunk read against an agreeing reader repeats the previous pixel and keeps the agreement |
| RoundTrip.PendingDecodes | include/cvqoi/CVQoi.hpp:239-244 | the flushed pending run decodes to that many copies of the previous pixel |
| RoundTrip.ChunkDecodes | include/cvqoi/CVQoi.hpp:246-298 | the chunk for a differing pixel decodes to the pixel and keeps the reader in agreement with the new state |
| RoundTrip.StepDecodes | include/cvqoi/CVQoi.hpp:228-299 | one step's chunks decode to the flushed run and the pixel, or to nothing while the run goes on |
| RoundTrip.ScanDecodes | include/cvqoi/CVQoi.hpp:217-311 | the chunks of every scan prefix decode to the pixels scanned so far except the pending run |
| RoundTrip.DecodeFramed | include/cvqoi/CVQoi.hpp:194-215 | header, four-channel chunks and end marker decode to the header and the scanned pixels |
| RoundTrip.RoundTripRgba | include/cvqoi/CVQoi.hpp:194-199 | with alpha, a QOI 1.0 reader gets back exactly the encoded image and header (cols, rows, 4, 1) |
| RoundTrip.RoundTripRgb | include/cvqoi/CVQoi.hpp:144-150 | the corrected three-channel stream (hash with alpha 255) decodes to the image and header (cols, rows, 3, 1) |
| RoundTrip.WidenedHash | include/cvqoi/CVQoi.hpp:144-150 | the three-channel hash is always 53 slots away from the QOI index position of the same pixel |
| RoundTrip.ThreeChannelChunks | include/cvqoi/CVQoi.hpp:217-311 | for a row A, B, A of distinct non-black pixels in different slots, the three-channel encoder writes literal, literal, Index of A's slot |
| RoundTrip.ThreeChannelRead | include/cvqoi/CVQoi.hpp:144-150 | a QOI reader gets A and B from those chunks, but the Index chunk gives a pixel other than A |
| RoundTrip.ThreeChannelIndexMismatch | include/cvqoi/CVQoi.hpp:144-150 | for every such row the three-channel stream decodes with the last pixel wrong |
| RoundTrip.ThreeChannelCounterexample | include/cvqoi/CVQoi.hpp:144-150 | the 3x1 image blue 1, blue 2, blue 1 does not round-trip |

## Left out

- `tests/src/main.cpp` is not part of this model. It is test plumbing: file
  scanning, PNG loading, file output and the external reference decoder.
- `cv::Mat` storage and row pointers: the image is a row-major `seq<Pixel>`.
  The channel-count and depth assertions of the constructor become the
  precondition that every pixel has the encoder's channel count.
- `std::ostream`, `writeToStream`, `writeArrayToStream` and
  `boost::endian::native_to_big`: the output is a `seq<byte>` the encoder
  appends to, and 32-bit fields are written as four explicit big-endian bytes.
- The `std::overflow_error` of `header`: `Encoder.Header` and `Encoder.Encode`
  return `false` and write nothing instead of throwing. In the source the
  test compares the `int` fields `mat.rows` and `mat.cols` with
  `UINT32_MAX` after converting them to `unsigned`, so it can never hold and
  the exception is never thrown. The model's refusal applies only to
  dimensions an `int` cannot hold.
- The `CVQOI_ASSERT_NO_CONSECUTIVE_INDEX` debug bookkeeping is not modelled
  as code. The property it asserts is `Properties.NoConsecutiveIndex`.
- The `int` loop counters `r` and `c` and the `uint8_t` run counter are
  unbounded integers. The counters stay far below the type limits (the run
  never exceeds 62). Dimensions beyond 32 bits, which the source's `int`
  fields cannot hold, are refused first.
- `TAG | field` is modelled as `TAG + field`. The fields never overlap the
  tag bits, as the builders' preconditions say.
- The reader in `decoding.dfy` checks only what the round trip needs, and
  differs from a general QOI reader at the edges. It is stricter about the
  body: the chunks must fill it exactly and give exactly width × height
  pixels, so a chunk after the last pixel makes it fail. It accepts a zero
  width or height, accepts any colorspace byte, and reads the channel count
  only to narrow pixels.

## Findings

| source | as written | input that shows it | evidently intended | confidence | as-written member | corrected member |
|---|---|---|---|---|---|---|
| include/cvqoi/CVQoi.hpp:144-150 | without alpha, `hash` leaves out the alpha term, although a QOI 1.0 reader keeps every pixel with alpha 255 and indexes it with `a*11` | the 3x1 three-channel image (b,g,r) = (1,0,0), (2,0,0), (1,0,0): the encoder writes a literal chunk for each of the first two pixels and then an Index chunk for slot 7, where it hashed the first pixel; a reader put that pixel at position 60 and gets black for the last pixel | three-channel pixels hashed as if their alpha were 255, so that the encoder's slots are the reader's index positions | not executed | RoundTrip.ThreeChannelIndexMismatch | RoundTrip.RoundTripRgb |
