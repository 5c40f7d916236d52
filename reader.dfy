/**
 * The frame reader nested in `combine_videos` (sync.py, lines 102-112):
 * a capture handle is read one frame at a time until the first failed
 * read, then released.
 */
module Reader {
  import opened Wrappers
  import opened Frames

  /**
   * What the decoder will do for one video path: whether the container
   * opens, the frame rate it reports, and the result of each successive
   * read (`None` for a read that fails). Every read past the end fails.
   */
  datatype MediaSource = MediaSource(canOpen: bool, fps: real, results: seq<Option<Frame>>)

  /** What happens to a capture handle, in order. */
  datatype StreamEvent = ReadOk | ReadFail | Released

  /** The frames of the longest run of successful reads at the start of `results`. */
  function ReadPrefix(results: seq<Option<Frame>>): seq<Frame> {
    if |results| == 0 || results[0].None? then []
    else [results[0].value] + ReadPrefix(results[1..])
  }

  /** The frames a reader obtains from `src`: none when the container does not open. */
  function Decoded(src: MediaSource): (frames: seq<Frame>)
    ensures !src.canOpen ==> frames == []
    ensures src.canOpen ==> IsLongestRun(src.results, frames)
  {
    if src.canOpen then
      ReadPrefixIsLongestRun(src.results, ReadPrefix(src.results));
      ReadPrefix(src.results)
    else []
  }

  /** `n` successful reads. */
  function ReadsOk(n: nat): seq<StreamEvent> {
    if n == 0 then [] else ReadsOk(n - 1) + [ReadOk]
  }

  /** The two ways a log of successful reads grows. */
  lemma LogGrows(log: seq<StreamEvent>, n: nat)
    ensures log + ReadsOk(n) + [ReadOk] == log + ReadsOk(n + 1)
    ensures log + ReadsOk(n) + [ReadFail] + [Released] == log + ReadsOk(n) + [ReadFail, Released]
  {
  }

  /**
   * `frames` is the result of reading `results` until the first failure
   * exactly when it is a run of successful reads at the start of `results`
   * that is followed by a failed read or by the end of the stream.
   */
  lemma {:induction false} ReadPrefixIsLongestRun(results: seq<Option<Frame>>, frames: seq<Frame>)
    ensures ReadPrefix(results) == frames <==> IsLongestRun(results, frames)
  {
    if |results| == 0 || results[0].None? {
    } else if |frames| == 0 {
    } else {
      ReadPrefixIsLongestRun(results[1..], frames[1..]);
      assert ReadPrefix(results) == frames <==>
        results[0].value == frames[0] && ReadPrefix(results[1..]) == frames[1..]
      by {
        assert frames == [frames[0]] + frames[1..];
      }
      assert IsLongestRun(results, frames) <==>
        results[0] == Some(frames[0]) && IsLongestRun(results[1..], frames[1..])
      by {
        if results[0] == Some(frames[0]) && IsLongestRun(results[1..], frames[1..]) {
          forall k | 0 <= k < |frames|
            ensures results[k] == Some(frames[k])
          {
            if k > 0 {
              assert results[1..][k - 1] == Some(frames[1..][k - 1]);
            }
          }
        }
      }
    }
  }

  /**
   * `frames` came, in order, from the successful reads at the start of
   * `results`, and what follows them is a failed read or the end.
   */
  ghost predicate IsLongestRun(results: seq<Option<Frame>>, frames: seq<Frame>) {
    |frames| <= |results|
    && (forall k :: 0 <= k < |frames| ==> results[k] == Some(frames[k]))
    && (|frames| < |results| ==> results[|frames|].None?)
  }

  /** Reads after a failed read never contribute a frame. */
  lemma {:induction false} ReadPrefixStopsAtFailure(before: seq<Option<Frame>>, after: seq<Option<Frame>>)
    ensures ReadPrefix(before + [None] + after) == ReadPrefix(before + [None])
    ensures |ReadPrefix(before + [None])| <= |before|
  {
    if |before| > 0 && before[0].Some? {
      ReadPrefixStopsAtFailure(before[1..], after);
      assert (before + [None] + after)[1..] == before[1..] + [None] + after;
      assert (before + [None])[1..] == before[1..] + [None];
    }
  }

  /** A capture handle over a `MediaSource` (the `cv2.VideoCapture` of line 103). */
  class VideoStream {
    const source: MediaSource
    /** How many entries of `source.results` have been consumed. */
    var pos: nat
    /** False once released, or when the container never opened. */
    var open: bool
    /** Every read and release made on this handle, in order. */
    ghost var log: seq<StreamEvent>

    ghost predicate Valid()
      reads this
    {
      pos <= |source.results|
    }

    /** The read results that are still to come. */
    ghost function Pending(): seq<Option<Frame>>
      reads this
      requires Valid()
    {
      if open then source.results[pos..] else []
    }

    /** Opens the container described by `src`. */
    constructor (src: MediaSource)
      ensures Valid()
      ensures source == src && pos == 0 && open == src.canOpen && log == []
    {
      source := src;
      pos := 0;
      open := src.canOpen;
      log := [];
    }

    /** The reported frame rate; a handle that is not open reports 0. */
    function Fps(): (fps: real)
      reads this
      ensures open ==> fps == source.fps
      ensures !open ==> fps == 0.0
    {
      if open then source.fps else 0.0
    }

    /** One read: the next result while open and before the end, a failure otherwise. */
    method Read() returns (r: Option<Frame>)
      requires Valid()
      modifies this
      ensures Valid() && open == old(open)
      ensures old(Pending()) == [] ==> r.None? && pos == old(pos)
      ensures old(Pending()) != [] ==> r == old(Pending())[0] && pos == old(pos) + 1
      ensures Pending() == if old(Pending()) == [] then [] else old(Pending())[1..]
      ensures log == old(log) + [if r.Some? then ReadOk else ReadFail]
    {
      if open && pos < |source.results| {
        r := source.results[pos];
        pos := pos + 1;
      } else {
        r := None;
      }
      log := log + [if r.Some? then ReadOk else ReadFail];
    }

    /** Releases the handle; later reads fail. */
    method Release()
      requires Valid()
      modifies this
      ensures Valid() && !open && pos == old(pos)
      ensures log == old(log) + [Released]
    {
      open := false;
      log := log + [Released];
    }
  }

  /**
   * `read_video`: reads frames until the first failed read, releases the
   * handle at that point and returns the frames in read order together
   * with the frame rate reported before reading.
   */
  method ReadVideo(stream: VideoStream) returns (frames: seq<Frame>, fps: real)
    requires stream.Valid()
    modifies stream
    ensures stream.Valid() && !stream.open
    ensures fps == old(stream.Fps())
    ensures frames == ReadPrefix(old(stream.Pending()))
    ensures stream.log == old(stream.log) + ReadsOk(|frames|) + [ReadFail, Released]
  {
    fps := stream.Fps();
    frames := [];
    ghost var start := stream.Pending();
    ghost var log0 := stream.log;
    while true
      invariant stream.Valid()
      invariant |frames| <= |start| && stream.Pending() == start[|frames|..]
      invariant forall k :: 0 <= k < |frames| ==> start[k] == Some(frames[k])
      invariant stream.log == log0 + ReadsOk(|frames|)
      decreases |stream.source.results| - stream.pos
    {
      var r := stream.Read();
      if r.None? {
        stream.Release();
        LogGrows(log0, |frames|);
        break;
      }
      LogGrows(log0, |frames|);
      frames := frames + [r.value];
    }
    ReadPrefixIsLongestRun(start, frames);
  }
}
