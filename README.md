# Animated-WebP frame durations and playback rules of tidbyt-renderer

tidbyt-renderer fetches a WebP image per application and shows it on a 64×32
LED matrix. This project models the core of `src/main.py`.

- **`extract_webp_frame_durations`**, the frame-duration extractor. It walks
  the chunks of a RIFF container (RFC 9649, section 2). It skips the 12-byte
  file header, then reads 8-byte chunk headers: a 4-byte tag and a
  little-endian 32-bit size. For each `ANMF` chunk it reads the 16-bit
  little-endian field at payload offset 12. It skips every chunk by its
  declared size and stops when fewer than 8 bytes are left. A duration field
  cut short raises an error, which the extractor catches before returning the
  list it has so far.
- **`render_webp`**, the control logic of playback. An image with more than
  one frame is animated. Each cycle shows frames 0..n-1 in order, each
  followed by a sleep of its own duration. A missing duration raises an
  indexing error that ends the whole playback. After each complete cycle the
  elapsed time is compared with max(update interval, total duration).

Modules:

- `LittleEndian` (`little_endian.dfy`): bytes and little-endian decoding, with
  its inverse.
- `Streams` (`byte_stream.dfy`): the in-memory `io.BytesIO` as a class
  `ByteStream`. It has fixed contents and a cursor. `Seek`, `SeekRelative`
  and `Read` follow `BytesIO`: reading at or past the end returns fewer
  bytes or none, seeking past the end is legal, and a relative seek before
  the start stops at 0.
- `WebpFrames` (`frame_durations.dfy`):
  - `Walk` and `FrameDurations` are the specification of the extractor's
    walk.
  - `ExtractFrameDurations` is the extractor's `while True` loop over a
    `ByteStream`, proved equal to them.
  - `Chunks` and `Collect` split the same walk into a plain chunk walker and
    a pass that picks out durations. The lemmas state the extractor's result
    in terms of them.
- `Rendering` (`playback.dfy`):
  - `Cycle`, `Animate` and `Render` describe playback as a trace of `Show(i)`
    and `Sleep(ms)` events and an outcome: `Finished`, or `Aborted` by the
    indexing error.
  - `AnimationLoop` and `RenderWebp` are the source's loops, proved equal to
    them.

On these points the model follows `src/main.py` rather than the RIFF and
RFC 9649 conventions or the usual expectations of a player:

- No pad byte is skipped after an odd-sized chunk. The next header is always
  at `header + 8 + size`.
- An `ANMF` chunk declared smaller than 14 bytes is not rejected. Its duration
  is still read, and the walk still moves on to `header + 8 + size`.
- A chunk size pointing past the end is not an error. The cursor moves there,
  and the next header read comes back short.
- A frame without a duration ends the playback with an error. It is not
  played as a zero-length frame.
- A failure while showing one frame is not skipped. Any exception ends the
  whole `render_webp` call.
- RFC 9649 gives the ANMF Frame Duration 24 bits. The code reads only its low
  16 bits, and so does the model.

## Model

| member | source | states |
|---|---|---|
| `LittleEndian.Decode` | src/main.py:56 | an n-byte little-endian field is below 256^n |
| `LittleEndian.DecodeEncode` | src/main.py:56 | decoding the encoding of a number at a width that holds it gives the number back |
| `LittleEndian.EncodeDecode` | src/main.py:56 | every byte string is the encoding of its decoded value, so decoding loses nothing |
| `LittleEndian.U16` | src/main.py:59 | the `'<H'` field is `b[0] + 256*b[1]`, below 65536 |
| `LittleEndian.U32` | src/main.py:56 | the `'<I'` chunk size is the unsigned 32-bit value of its 4 bytes, least significant first |
| `Streams.Peek` | src/main.py:53-54 | `read(n)` returns n bytes exactly when n bytes remain; otherwise it returns the rest, and nothing at or past the end |
| `Streams.ByteStream.Read` | src/main.py:53 | returns what `Peek` gives and moves the cursor past exactly those bytes |
| `Streams.ByteStream.Seek` | src/main.py:50 | puts the cursor at the absolute offset, even past the end |
| `Streams.ByteStream.SeekRelative` | src/main.py:62-64 | moves the cursor by a signed offset, never before 0 |
| `WebpFrames.HeaderBytes` | src/main.py:56-57 | `ChunkTag` and `ChunkSize` unpack the header as `'<4sI'`: the tag equals "ANMF" iff its four bytes are 0x41 0x4E 0x4D 0x46; the size is the unsigned 32-bit value of the next four bytes, least significant first |
| `WebpFrames.NextChunk` | src/main.py:62-64 | the next header is at least 8 bytes after the current one, right after the declared payload, with no pad byte |
| `WebpFrames.DurationFits` | src/main.py:58-59 | the duration field fits iff `read(2)` at 20 bytes past the header returns both bytes; otherwise the unpack raises |
| `WebpFrames.DurationAt` | src/main.py:58-59 | an ANMF duration is `b[p] + 256*b[p+1]` at payload offset 12, below 65536 |
| `WebpFrames.Walk` | src/main.py:52-64 | the walk leaves the cursor at or past the end of input; every duration is below 65536; each one costs at least 8 bytes of input |
| `WebpFrames.FrameDurations` | src/main.py:40-73 | input shorter than 20 bytes gives an empty list; every duration is below 65536; at most (len - 12) / 8 durations |
| `WebpFrames.ExtractFrameDurations` | src/main.py:50-73 | the loop returns exactly `FrameDurations` of the buffer and leaves the cursor where `Walk` says |
| `WebpFrames.Chunks` | src/main.py:52-64 | the chunk walker: the first header at offset 12; each header is a 4-byte tag and a LE uint32 size read at its offset; each next one at `offset + 8 + size`; the walk ends exactly when fewer than 8 bytes remain |
| `WebpFrames.AnmfChunks` | src/main.py:57 | every chunk it keeps, in order, is tagged ANMF |
| `WebpFrames.AnmfChunksFilter` | src/main.py:57 | a chunk is kept iff it is among the walked chunks and tagged ANMF |
| `WebpFrames.Collect` | src/main.py:57-61 | the durations picked from a chunk list: no more than there are chunks, each below 65536 |
| `WebpFrames.WalkIsChunkWalk` | src/main.py:52-64 | the fused loop returns what the chunk walker followed by `Collect` returns |
| `WebpFrames.WalkStopsAtCutShort` | src/main.py:57-59 | the loop ends on a duration field cut short iff some ANMF chunk the chunk walker finds is cut short |
| `WebpFrames.CollectReadsAnmfChunks` | src/main.py:57-61 | the j-th duration comes from the j-th ANMF chunk; the list falls short only at an ANMF chunk whose field runs past the end |
| `WebpFrames.CollectStopsAtCut` | src/main.py:59-61 | nothing after a cut-short ANMF chunk contributes |
| `WebpFrames.FrameDurationsAreAnmfFields` | src/main.py:50-64 | the result has one entry per ANMF chunk walked from offset 12, in encounter order, each `b[p] + 256*b[p+1]` at payload offset 12. Chunks with other tags contribute nothing. The list is shorter only when an ANMF chunk's field is cut short |
| `WebpFrames.TruncatedFrameKeepsEarlierDurations` | src/main.py:57-73 | when an ANMF chunk's duration field runs past the end, the result is exactly the durations of the chunks before it |
| `WebpFrames.OneFrameOf100Ms` | src/main.py:56-61 | header + one ANMF chunk of size 20 with duration bytes [100, 0] gives [100] |
| `WebpFrames.OddSizedChunkIsNotPadded` | src/main.py:62-64 | after a 1-byte chunk the next header is read at offset 21, with no pad byte |
| `WebpFrames.UndersizedAnmfIsStillRead` | src/main.py:58-62 | an ANMF chunk of declared size 0 still has its duration read, from beyond its own payload |
| `Rendering.IsAnimated` | src/main.py:79 | the image is animated iff it has a frame count other than 0 or 1; without `n_frames` it is static |
| `Rendering.Sum` | src/main.py:87 | `sum(frame_durations)`: no single duration exceeds the total |
| `Rendering.Threshold` | src/main.py:108 | the stop threshold is the larger of the update interval and the total duration |
| `Rendering.Schedule` | src/main.py:94-102 | k frames give 2k events |
| `Rendering.ScheduleAt` | src/main.py:94-102 | a schedule shows frame i at position 2i, followed by a sleep of `durations[i]` |
| `Rendering.Cycle` | src/main.py:94-102 | a cycle completes iff there is a duration for each of the n frames, with 2n events; otherwise the indexing error at line 100 aborts it after 2·len(durations) + 1 events |
| `Rendering.CycleShape` | src/main.py:94-102 | a cycle shows frames 0, 1, ... in order, each followed by a sleep of its own duration, so an aborted cycle ends right after showing frame `len(durations)` |
| `Rendering.Repeat` | src/main.py:90-110 | k repetitions of a cycle have k times its events and start with its first event |
| `Rendering.Animate` | src/main.py:90-110 | the animated path aborts iff there are fewer durations than frames, and then within the first cycle right after showing frame `len(durations)`; otherwise it plays (first reading at or above the threshold + 1) whole cycles of 2n events each |
| `Rendering.FirstReaching` | src/main.py:106-110 | the index of the first elapsed-time reading at or above the threshold |
| `Rendering.Render` | src/main.py:79-116 | playback always starts by showing frame 0. It aborts iff the image is animated and has fewer durations than frames. A static image is one frame held for the update interval, whatever its bytes |
| `Rendering.ScheduleSleeps` | src/main.py:100-102 | a cycle's sleeps add up to the durations of its frames |
| `Rendering.RepeatSleeps` | src/main.py:90-110 | k cycles sleep k times as long as one |
| `Rendering.AnimationSleeps` | src/main.py:87-110 | a completed playback sleeps (number of cycles) × (sum of the shown frames' durations) in all |
| `Rendering.AnimationStopRule` | src/main.py:106-110 | a completed playback has exactly c cycles iff c ≥ 1, the reading after cycle c reaches max(interval, total), and no earlier reading does: the test runs only after whole cycles |
| `Rendering.LongAnimationPlaysOnce` | src/main.py:87-110 | an animation at least as long as the interval, with every duration present, plays exactly once when the clock has passed its sleeps |
| `Rendering.AnimationLoop` | src/main.py:87-110 | the `while True`/`for frame` loop produces exactly the events and the outcome of `Animate` |
| `Rendering.RenderWebp` | src/main.py:75-120 | produces exactly what `Render` gives. The static path leaves the stream untouched and never extracts durations. The animated path rewinds and extracts |

## Left out

- `get_webp`: the HTTP request is network I/O.
- The configuration file and the `RGBMatrix` setup: file I/O and a hardware driver.
- PIL decoding, `convert('RGB')`, `resize((64, 32))` and `matrix.SetImage` are foreign library calls. They appear only as the event `Show(i)`, and their failures are not modelled.
- `Image.open` failing: the frame count is a parameter, `None` when the image has no `n_frames`.
- `time.sleep` and `time.time`: a sleep is the event `Sleep(ms)`. The clock is the sequence of elapsed-time readings taken after each cycle, counted from `start_time`, taken just after the image is opened (src/main.py:82). They leave out the time spent opening the image and include the time spent extracting the durations.
- Float seconds: durations, the update interval and elapsed time are whole milliseconds, so the `/ 1000.0` conversions and their rounding are not modelled.
- The file-path input branch of the extractor and its "invalid type" error: only the in-memory buffer is modelled.
- Logging and traceback output.
- `main`: the endless loop over applications, the 1-second pause after a failure, `KeyboardInterrupt` and `matrix.Clear()`.
- `BytesIO`'s overflow error for positions near 2^63: it cannot occur with 32-bit chunk sizes.
- Rendering.AnimationLoop: requires that, once cycles complete, some elapsed-time reading reaches the threshold. The loop in the source never ends otherwise, so runs that never stop are not modelled.
- Rendering.RenderWebp: carries the same requirement on the clock for animated images.
