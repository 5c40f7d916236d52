/**
 * The video writer of `combine_videos` (`cv2.VideoWriter`, sync.py,
 * lines 121, 125 and 126): a frame rate and a frame size fixed when it is
 * opened, and the frames written to it, in order.
 */
module Writer {
  import opened Frames

  class VideoWriter {
    const fps: real
    /** The declared frame size. */
    const width: int
    const height: int
    /** The frames handed to `write`, in the order they were written. */
    ghost var written: seq<Frame>
    /** False once released. */
    var open: bool

    constructor (fps: real, width: int, height: int)
      ensures this.fps == fps && this.width == width && this.height == height
      ensures written == [] && open
    {
      this.fps := fps;
      this.width := width;
      this.height := height;
      written := [];
      open := true;
    }

    /** Appends a frame to the stream; a released writer ignores it. */
    method Write(f: Frame)
      modifies this
      ensures open == old(open)
      ensures written == if old(open) then old(written) + [f] else old(written)
    {
      if open {
        written := written + [f];
      }
    }

    /** Closes the stream; what was written stays written. */
    method Release()
      modifies this
      ensures !open && written == old(written)
    {
      open := false;
    }
  }
}
