# Side-by-side composition stage of the lip-sync pipeline

This project models the video composition stage of `combine_videos` in
`sync.py`. The stage reads the original (base) video and the lip-synced
(generated) video frame by frame. It writes a new video in which every
frame shows a base frame on the left and the matching generated frame on
the right. The generated video sets the length. The base video cycles:
output frame `i` uses base frame `i mod len(base)`.

Modules, one per component:

- `Frames` (`frames.dfy`): a frame is a rectangular grid of rows of an
  abstract `Pixel`. `HConcat` is `cv2.hconcat`: rows are concatenated
  pairwise, so both frames must have the same height. `LeftPart` and
  `RightPart` split a frame at a column, which undoes `HConcat`.
- `Reader` (`reader.dfy`): `read_video`. The decoder behind
  `cv2.VideoCapture` is a `MediaSource` value. It holds whether the
  container opens, the frame rate it reports, and the result of each
  successive read. `VideoStream` is the capture handle. It keeps a ghost
  log of its reads and releases. `ReadVideo` is the `while True` loop and
  is proved against the pure function `ReadPrefix`.
- `Compositor` (`compositor.dfy`): the pure specification of the output.
  `ComposeSequence` returns either the composed frames or the error that
  stops the loop. Empty base gives `EmptyBase`. The first index whose two
  frames differ in height gives `HeightMismatch(i)`.
- `Writer` (`writer.dfy`): `cv2.VideoWriter`, a class with a fixed frame
  rate and declared size, a ghost sequence of written frames, and an open flag.
- `Combine` (`combine.dfy`): `ComposeAndWrite` is the `for` loop of lines
  122-125. `CombineVideos` is the whole stage up to the audio mux.

Behaviour of the code worth knowing, which the model keeps:

- An empty base video fails at `base[0]` (sync.py:117) even when the
  generated video is empty too.
- The intermediate video is written at the base video's frame rate
  (sync.py:114, 121). The generated video's frame rate is read and discarded.
- A container that cannot be opened raises no error. Its reads fail, so
  it yields no frames, and its frame rate reads as 0.
- An empty generated video raises no error. The writer is opened,
  receives no frames, and is released.
- A height mismatch raises inside the loop. The frames before it stay
  written, and the writer is left unreleased, because line 126 is skipped.

## Model

| member | source | states |
|---|---|---|
| `Reader.ReadPrefixIsLongestRun` | sync.py:105-111 | the frames read are exactly the successful reads at the start of the stream, in read order, followed by a failed read or the end (both directions) |
| `Reader.Decoded` | sync.py:102-112 | the frames `read_video` obtains from a video: none when the container does not open, otherwise the run of successful reads at the start, followed by a failed read or the end |
| `Reader.VideoStream.Fps` | sync.py:104 | the frame rate an open handle reports is its video's; a handle that is not open reports 0 |
| `Reader.ReadPrefixStopsAtFailure` | sync.py:106-111 | nothing after the first failed read is ever returned, whatever follows it |
| `Reader.VideoStream.constructor` | sync.py:103 | a new handle is at the start of its reads, open exactly when the container opens, with an empty log |
| `Reader.VideoStream.Read` | sync.py:107 | a read returns the next result and advances while open and before the end, and fails otherwise; it is logged |
| `Reader.VideoStream.Release` | sync.py:109 | releasing closes the handle, so every later read fails; it is logged |
| `Reader.ReadVideo` | sync.py:102-112 | returns `ReadPrefix` of the pending reads and the frame rate reported before reading; the log gains one successful read per frame, then one failed read, then exactly one release, and the handle ends closed |
| `Frames.HConcat` | sync.py:125 | the concatenated frame has the inputs' common height and the sum of their widths |
| `Frames.SplitHConcat` | sync.py:125 | the left and right parts of a concatenated frame, split at the left width, are the two inputs |
| `Frames.HConcatOfSplit` | sync.py:125 | concatenating the two parts of a split frame gives back the frame |
| `Compositor.CyclicIndex` | sync.py:123 | the base index `i % len(base)` is always a valid index, and is `i` itself while `i < len(base)` |
| `Compositor.CyclicIndexWraps` | sync.py:123 | output indices `len(base)` apart use the same base frame |
| `Compositor.FirstMismatch` | sync.py:122-125 | every index before it pairs frames of equal height, and the index itself, if below `len(generated)`, does not |
| `Compositor.WrittenFrames` | sync.py:122-125 | the frames written before the loop stops: the whole composed sequence on success, and exactly as many frames as the failing index otherwise |
| `Compositor.ComposeSequence` | sync.py:117-125 | an empty base fails with `EmptyBase`; a success has one frame per generated frame; a height mismatch names an index below `len(generated)` |
| `Compositor.WrittenFrameParts` | sync.py:122-125 | every frame written before the loop stops, on success or on a height mismatch, has `base[i mod len(base)]` on the left and `generated[i]` on the right, with their height and the sum of their widths |
| `Compositor.ComposeSequenceOutcome` | sync.py:117-125 | an empty base always fails with `EmptyBase`; otherwise composition succeeds exactly when every output index pairs frames of equal height, and a failure names the first index that does not |
| `Compositor.ComposedFrameParts` | sync.py:122-125 | a successful composition has `len(generated)` frames; frame `i` splits into `base[i mod len(base)]` on the left and `generated[i]` on the right, with their height and the sum of their widths |
| `Compositor.BaseWrapsAround` | sync.py:123 | with 3 base frames and 5 generated frames, outputs 3 and 4 show base frames 0 and 1 on the left |
| `Compositor.LengthIgnoresBase` | sync.py:122 | the output length is `len(generated)` whatever the number of base frames |
| `Compositor.ComposedFrameFitsDeclaredSize` | sync.py:117-125 | for base frames of one size, output frame `i` has the writer's declared size `(2 * base width, base height)` exactly when generated frame `i` has the base frames' size |
| `Writer.VideoWriter.constructor` | sync.py:121 | a new writer has the given frame rate and declared size, is open and holds no frames |
| `Writer.VideoWriter.Write` | sync.py:125 | an open writer appends the frame to what it holds; a released one ignores it |
| `Writer.VideoWriter.Release` | sync.py:126 | releasing closes the writer and keeps what was written |
| `Combine.ComposeAndWrite` | sync.py:117-126 | no writer exists for an empty base; otherwise the writer has the given frame rate, declared size `(2 * width, height)` of `base[0]`, and holds `WrittenFrames` in index order; it is released exactly when no error occurred, and the error returned is the one `ComposeSequence` gives |
| `Combine.CombineVideos` | sync.py:99-126 | the same result for the frames decoded from both videos, with the writer at the base video's frame rate |

## Left out

- The audio mux (sync.py:128-129) runs an external `ffmpeg` process through a shell command line. That process cannot be modelled here.
- Dependency installation, path preparation and the call to the inference script (sync.py:6-97, 131-143) are process, network and filesystem glue.
- The directory creation at sync.py:119-120 and the fixed intermediate path are filesystem effects. They are not modelled.
- Decoding and encoding are abstract. A pixel is an opaque value, and a frame rate is a `real` that is passed through and never computed on. The `mp4v` codec, colour channels and pixel depth are not modelled, and neither is what the encoder does with a frame whose size differs from the declared size. The model only states when the sizes agree.
- A frame with no rows has width 0 in this model. An image array would keep its width.
- `cv2.hconcat` also requires the same pixel type in both frames. Pixels are abstract here, so only the height condition is modelled.
