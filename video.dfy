/** The video source as the pipeline sees it through OpenCV's `VideoCapture`:
    already-decoded grayscale frames, a read cursor (`CAP_PROP_POS_FRAMES`),
    and the helpers that turn seconds into frame numbers. */
module Video {
  import opened Basics
  import opened Grids

  /** `int(seconds * fps)`: a time offset as a whole number of frames. */
  function FramesIn(seconds: real, fps: real): int
  {
    Trunc(seconds * fps)
  }

  /** `total_frames - int(end_offset * fps)`: the position at which reading stops. */
  function EndFrame(total: nat, fps: real, endOffset: real): int
  {
    total - FramesIn(endOffset, fps)
  }

  /** A non-negative offset is the whole number of frames it spans, rounded
      down; a negative one is never a positive number of frames. */
  lemma FramesInBounds(seconds: real, fps: real)
    ensures seconds * fps >= 0.0 ==>
      0 <= FramesIn(seconds, fps) && FramesIn(seconds, fps) as real <= seconds * fps < FramesIn(seconds, fps) as real + 1.0
    ensures seconds * fps < 0.0 ==> FramesIn(seconds, fps) <= 0
  {
    TruncBounds(seconds * fps);
  }

  /** A non-negative end offset puts the end boundary at or before the last
      frame, short of it by the offset's whole frames. */
  lemma EndFrameBounds(total: nat, fps: real, endOffset: real)
    ensures endOffset * fps >= 0.0 ==> EndFrame(total, fps, endOffset) <= total
    ensures endOffset * fps >= 0.0 ==>
      (total - EndFrame(total, fps, endOffset)) as real <= endOffset * fps < (total - EndFrame(total, fps, endOffset)) as real + 1.0
  {
    FramesInBounds(endOffset, fps);
  }

  /** Where `cap.set(CAP_PROP_POS_FRAMES, target)` leaves the cursor: the target,
      kept within the frames that exist. */
  function SeekTarget(target: int, total: nat): (p: nat)
    ensures p <= total
    ensures 0 <= target <= total ==> p == target
  {
    if target < 0 then 0 else if target > total then total else target
  }

  class VideoCapture {
    /** `cap.isOpened()` */
    const isOpen: bool
    /** `CAP_PROP_FPS` */
    const fps: real
    /** `CAP_PROP_FRAME_WIDTH`, `CAP_PROP_FRAME_HEIGHT` */
    const width: nat
    const height: nat
    /** Every frame of the stream, already converted to grayscale. */
    const frames: seq<Grid>
    /** `CAP_PROP_POS_FRAMES`: the index of the next frame `read` returns. */
    var pos: nat

    ghost predicate Valid()
      reads this
    {
      pos <= |frames| && AllShaped(frames, height, width)
    }

    constructor (isOpen: bool, fps: real, width: nat, height: nat, frames: seq<Grid>)
      requires AllShaped(frames, height, width)
      ensures Valid() && pos == 0
      ensures this.isOpen == isOpen && this.fps == fps && this.frames == frames
      ensures this.width == width && this.height == height
    {
      this.isOpen := isOpen;
      this.fps := fps;
      this.width := width;
      this.height := height;
      this.frames := frames;
      pos := 0;
    }

    /** `int(cap.get(CAP_PROP_FRAME_COUNT))` */
    function TotalFrames(): nat
    {
      |frames|
    }

    /** `cap.read()`: the next frame and an advanced cursor, or a failed read
        (closed capture or end of stream) that leaves the cursor alone. */
    method Read() returns (ok: bool, frame: Grid)
      requires Valid()
      modifies this`pos
      ensures Valid()
      ensures ok <==> isOpen && old(pos) < |frames|
      ensures ok ==> frame == frames[old(pos)] && pos == old(pos) + 1
      ensures !ok ==> pos == old(pos)
    {
      if isOpen && pos < |frames| {
        frame := frames[pos];
        pos := pos + 1;
        ok := true;
      } else {
        frame := [];
        ok := false;
      }
    }

    /** `cap.grab()`: like `read`, without returning the frame. */
    method Grab() returns (ok: bool)
      requires Valid()
      modifies this`pos
      ensures Valid()
      ensures ok <==> isOpen && old(pos) < |frames|
      ensures pos == if ok then old(pos) + 1 else old(pos)
    {
      ok := isOpen && pos < |frames|;
      if ok {
        pos := pos + 1;
      }
    }

    /** `cap.set(CAP_PROP_POS_FRAMES, target)` */
    method SetPosition(target: int)
      requires Valid()
      modifies this`pos
      ensures Valid()
      ensures pos == if isOpen then SeekTarget(target, |frames|) else old(pos)
    {
      if isOpen {
        pos := SeekTarget(target, |frames|);
      }
    }
  }

  /** `skip_edges`: the first frame after the start offset and the frame
      position at which the end offset begins. */
  function SkipEdges(cap: VideoCapture, fps: real, startOffset: real, endOffset: real): (r: (int, int))
    ensures r.0 == FramesIn(startOffset, fps)
    ensures startOffset * fps >= 0.0 ==> 0 <= r.0 && r.0 as real <= startOffset * fps < r.0 as real + 1.0
    ensures startOffset * fps < 0.0 ==> r.0 <= 0 && r.0 as real - 1.0 < startOffset * fps <= r.0 as real
    ensures endOffset * fps >= 0.0 ==> r.1 <= cap.TotalFrames()
    ensures r.1 == EndFrame(cap.TotalFrames(), fps, endOffset)
  {
    FramesInBounds(startOffset, fps);
    TruncBounds(startOffset * fps);
    EndFrameBounds(cap.TotalFrames(), fps, endOffset);
    (FramesIn(startOffset, fps), EndFrame(cap.TotalFrames(), fps, endOffset))
  }

  /** `skip_time`: grabs `framesToSkip` frames (none for a negative count) and
      returns the frame counter advanced by `framesToSkip`, whether or not the
      grabs succeeded. */
  method SkipTime(cap: VideoCapture, framesToSkip: int, frameCount: int) returns (r: int)
    requires cap.Valid()
    modifies cap`pos
    ensures cap.Valid()
    ensures r == frameCount + framesToSkip
    ensures cap.pos == if !cap.isOpen || framesToSkip <= 0 then old(cap.pos)
                       else SeekTarget(old(cap.pos) + framesToSkip, |cap.frames|)
  {
    var i := 0;
    while i < framesToSkip
      invariant cap.Valid()
      invariant 0 <= i || framesToSkip <= 0
      invariant i <= framesToSkip || i == 0
      invariant cap.pos == if !cap.isOpen || i <= 0 then old(cap.pos)
                           else SeekTarget(old(cap.pos) + i, |cap.frames|)
      decreases framesToSkip - i
    {
      var _ := cap.Grab();
      i := i + 1;
    }
    r := frameCount + framesToSkip;
  }

  datatype LoadError =
    | CannotOpen          // IOError: unable to open the video file
    | StartBeyondEnd      // ValueError: start time exceeds the video length
    | ReadAfterSeekFailed // IOError: could not read a frame after seeking

  /** What `load_video` returns besides the capture itself. */
  datatype Loaded = Loaded(fps: real, frame: Grid, width: nat, height: nat)

  /** `load_video`: refuses a closed capture and a start frame at or past the
      frame count; otherwise seeks to the start frame and reads it. */
  method LoadVideo(cap: VideoCapture, startTime: real) returns (r: Result<Loaded, LoadError>)
    requires cap.Valid()
    modifies cap`pos
    ensures cap.Valid()
    ensures !cap.isOpen ==> r == Failure(CannotOpen) && cap.pos == old(cap.pos)
    ensures cap.isOpen && FramesIn(startTime, cap.fps) >= |cap.frames| ==>
      r == Failure(StartBeyondEnd) && cap.pos == old(cap.pos)
    ensures cap.isOpen && FramesIn(startTime, cap.fps) < |cap.frames| ==>
      var p := SeekTarget(FramesIn(startTime, cap.fps), |cap.frames|);
      if p < |cap.frames|
      then r == Success(Loaded(cap.fps, cap.frames[p], cap.width, cap.height)) && cap.pos == p + 1
      else r == Failure(ReadAfterSeekFailed) && cap.pos == p
  {
    if !cap.isOpen {
      return Failure(CannotOpen);
    }
    var startFrame := FramesIn(startTime, cap.fps);
    if startFrame >= cap.TotalFrames() {
      return Failure(StartBeyondEnd);
    }
    cap.SetPosition(startFrame);
    var ok, frame := cap.Read();
    if !ok {
      return Failure(ReadAfterSeekFailed);
    }
    r := Success(Loaded(cap.fps, frame, cap.width, cap.height));
  }

  /** `reset_cap_position`: seeks to the frame `int(fps * start_time)`. */
  method ResetCapPosition(cap: VideoCapture, fps: real, startTime: real)
    requires cap.Valid()
    modifies cap`pos
    ensures cap.Valid()
    ensures cap.pos == if cap.isOpen then SeekTarget(FramesIn(startTime, fps), |cap.frames|) else old(cap.pos)
  {
    cap.SetPosition(FramesIn(startTime, fps));
  }
}
