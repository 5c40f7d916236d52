/**
 * `combine_videos` (sync.py, lines 99-126) up to, and not including, the
 * audio mux: read both videos, open a writer sized for two base frames
 * side by side at the base video's frame rate, and write one composed
 * frame per generated frame.
 */
module Combine {
  import opened Wrappers
  import opened Frames
  import opened Reader
  import opened Compositor
  import opened Writer

  /**
   * Lines 117-126: sizes the writer from the first base frame, writes the
   * composed frames in index order and releases the writer. An empty base
   * fails before any writer exists; a height mismatch at index `k` fails
   * after frames `0 .. k-1` were written, leaving the writer open.
   */
  method ComposeAndWrite(base: seq<Frame>, generated: seq<Frame>, fps: real)
    returns (writer: VideoWriter?, err: Option<CompositionError>)
    ensures writer == null <==> |base| == 0
    ensures err.None? <==> ComposeSequence(base, generated).Success?
    ensures err.Some? ==> err.value == ComposeSequence(base, generated).error
    ensures writer != null ==>
              fresh(writer)
              && writer.fps == fps
              && writer.width == 2 * Width(base[0])
              && writer.height == Height(base[0])
              && writer.written == WrittenFrames(base, generated)
              && writer.open == err.Some?
  {
    if |base| == 0 {
      return null, Some(EmptyBase);
    }
    var frameH, frameW := Height(base[0]), Width(base[0]);
    writer := new VideoWriter(fps, frameW * 2, frameH);
    err := None;
    for i := 0 to |generated|
      invariant i <= FirstMismatch(base, generated)
      invariant writer.open && writer.written == ComposedPrefix(base, generated, i)
    {
      var frameInput := base[CyclicIndex(i, |base|)];
      var frameOutput := generated[i];
      if Height(frameInput) != Height(frameOutput) {
        assert !HeightsAgree(base, generated, i);
        err := Some(HeightMismatch(i));
        return;
      }
      writer.Write(HConcat(frameInput, frameOutput));
      assert ComposedPrefix(base, generated, i + 1) == ComposedPrefix(base, generated, i) + [ComposedFrame(base, generated, i)];
    }
    writer.Release();
  }

  /**
   * The whole composition stage: both videos are read to their first
   * failed read, and the result is what `ComposeAndWrite` makes of the
   * decoded frames. The writer's frame rate is the base video's; the
   * generated video's frame rate plays no part.
   */
  method CombineVideos(input: MediaSource, generatedVideo: MediaSource)
    returns (writer: VideoWriter?, err: Option<CompositionError>)
    ensures var base, generated := Decoded(input), Decoded(generatedVideo);
            (writer == null <==> |base| == 0)
            && (err.None? <==> ComposeSequence(base, generated).Success?)
            && (err.Some? ==> err.value == ComposeSequence(base, generated).error)
            && (writer != null ==>
                  fresh(writer)
                  && writer.fps == input.fps
                  && writer.width == 2 * Width(base[0])
                  && writer.height == Height(base[0])
                  && writer.written == WrittenFrames(base, generated)
                  && writer.open == err.Some?)
  {
    var inputStream := new VideoStream(input);
    var inputFrames, fps := ReadVideo(inputStream);
    var outputStream := new VideoStream(generatedVideo);
    var outputFrames, _ := ReadVideo(outputStream);
    writer, err := ComposeAndWrite(inputFrames, outputFrames, fps);
  }
}
