/** `capture_tab_frames`: reads the video from the current position, crops
    the tab area of every frame, always saves the first crop, and afterwards
    saves a crop only when it differs from the last saved crop by more than
    the similarity threshold. Reading stops at the end of the stream or at the
    end boundary `total_frames - int(end_time * fps)`. */
module Capture {
  import opened Basics
  import opened Grids
  import opened ChangeDetection
  import opened Region
  import opened Video

  /** The tab area of a frame as capture crops it: `safe_crop` with the
      default padding. */
  function TabCrop(frame: Grid, area: Roi): Grid
  {
    SafeCrop(frame, area, DefaultPad)
  }

  /** The padded tab area is empty on frames of this size. */
  predicate TabCropEmpty(area: Roi, width: nat, height: nat)
  {
    var b := PaddedBounds(area, width, height, DefaultPad);
    SliceLen(b.y1, b.y2, height) == 0 || SliceLen(b.x1, b.x2, width) == 0
  }

  /** The crop of a frame of the capture is empty exactly when the padded
      area is empty on frames of that size. */
  lemma TabCropSize(frame: Grid, width: nat, height: nat, area: Roi)
    requires Shaped(frame, height, width)
    ensures Size(TabCrop(frame, area)) == 0 <==> TabCropEmpty(area, width, height)
  {
    SafeCropShape(frame, height, width, area, DefaultPad);
    var b := PaddedBounds(area, width, height, DefaultPad);
    SizeOfShaped(TabCrop(frame, area), SliceLen(b.y1, b.y2, height), SliceLen(b.x1, b.x2, width));
  }

  /** Any two crops of one capture can be compared pixel by pixel: they share
      the shape the area has on frames of the capture's size. */
  lemma TabCropsComparable(f: Grid, g: Grid, width: nat, height: nat, area: Roi)
    requires Shaped(f, height, width) && Shaped(g, height, width)
    requires !TabCropEmpty(area, width, height)
    ensures Comparable(TabCrop(f, area), TabCrop(g, area))
  {
    var b := PaddedBounds(area, width, height, DefaultPad);
    var rows, cols := SliceLen(b.y1, b.y2, height), SliceLen(b.x1, b.x2, width);
    SafeCropShape(f, height, width, area, DefaultPad);
    SafeCropShape(g, height, width, area, DefaultPad);
    var cf, cg := TabCrop(f, area), TabCrop(g, area);
    assert Cols(cf) == cols;
    SizeOfShaped(cf, rows, cols);
    ComparableIff(cf, cg);
  }

  /** `str(d)` for a single digit. */
  function Digit(d: nat): (c: char)
    requires d < 10
    ensures '0' <= c <= '9'
  {
    "0123456789"[d]
  }

  /** `str(n)`: the decimal digits of `n`, most significant first. */
  function Decimal(n: nat): (s: string)
    ensures |s| > 0
    ensures forall k | 0 <= k < |s| :: '0' <= s[k] <= '9'
  {
    if n < 10 then [Digit(n)] else Decimal(n / 10) + [Digit(n % 10)]
  }

  /** The number a string of decimal digits denotes. */
  function DecimalValue(s: string): nat
    requires forall k | 0 <= k < |s| :: '0' <= s[k] <= '9'
  {
    if |s| == 0 then 0 else DecimalValue(s[..|s| - 1]) * 10 + (s[|s| - 1] as int - '0' as int)
  }

  /** Reading back the digits gives the number. */
  lemma {:induction false} DecimalRoundTrip(n: nat)
    ensures DecimalValue(Decimal(n)) == n
  {
    var s := Decimal(n);
    if n >= 10 {
      DecimalRoundTrip(n / 10);
      assert s[..|s| - 1] == Decimal(n / 10);
      assert s[|s| - 1] as int - '0' as int == n % 10;
    } else {
      assert s[..0] == [];
    }
  }

  /** `f"tab_screenshots/frame_{frame_count}.png"` */
  function FramePath(count: nat): string
  {
    "tab_screenshots/frame_" + Decimal(count) + ".png"
  }

  /** Different frame counters never share a path, so no screenshot
      overwrites another. */
  lemma FramePathInjective(a: nat, b: nat)
    ensures FramePath(a) == FramePath(b) <==> a == b
  {
    if FramePath(a) == FramePath(b) {
      var pa, pb := FramePath(a), FramePath(b);
      var prefix := |"tab_screenshots/frame_"|;
      assert Decimal(a) == pa[prefix..|pa| - 4];
      assert Decimal(b) == pb[prefix..|pb| - 4];
      DecimalRoundTrip(a);
      DecimalRoundTrip(b);
    }
  }

  /** The paths of the saved frames, in saving order. */
  function Paths(saved: seq<nat>): (ps: seq<string>)
    ensures |ps| == |saved|
    ensures forall k | 0 <= k < |saved| :: ps[k] == FramePath(saved[k])
  {
    seq(|saved|, k requires 0 <= k < |saved| => FramePath(saved[k]))
  }

  lemma PathsSnoc(saved: seq<nat>, count: nat)
    ensures Paths(saved + [count]) == Paths(saved) + [FramePath(count)]
  {
    assert |Paths(saved + [count])| == |Paths(saved) + [FramePath(count)]|;
  }

  /** Strictly increasing counters give pairwise different paths. */
  lemma PathsDistinct(saved: seq<nat>)
    requires Increasing(saved)
    ensures forall a, b | 0 <= a < b < |saved| :: Paths(saved)[a] != Paths(saved)[b]
  {
    forall a, b | 0 <= a < b < |saved|
      ensures Paths(saved)[a] != Paths(saved)[b]
    {
      FramePathInjective(saved[a], saved[b]);
    }
  }

  /** The loop's memory: the baseline (`prev_cropped_gray`) and the frame
      counters of the saved frames, in saving order. */
  datatype Progress<C> = Progress(baseline: Option<C>, saved: seq<nat>)

  /** One processed item, the `count`-th: with no baseline it is saved and
      becomes the baseline; otherwise it is saved, and replaces the baseline,
      only when it `exceeds` the baseline. */
  function Advance<C>(p: Progress<C>, count: nat, item: C, exceeds: (C, C) -> bool): Progress<C>
  {
    match p.baseline
    case None => Progress(Some(item), p.saved + [count])
    case Some(base) => if exceeds(base, item) then Progress(Some(item), p.saved + [count]) else p
  }

  /** The memory after processing the views of the `i` items from `start` on. */
  function Scan<T, C>(xs: seq<T>, start: nat, i: nat, view: T -> C, exceeds: (C, C) -> bool): Progress<C>
    requires start + i <= |xs|
  {
    if i == 0 then Progress(None, [])
    else Advance(Scan(xs, start, i - 1, view, exceeds), i - 1, view(xs[start + i - 1]), exceeds)
  }

  /** The counters are strictly increasing. */
  predicate Increasing(s: seq<nat>)
  {
    forall a, b | 0 <= a < b < |s| :: s[a] < s[b]
  }

  /** After `i` items a baseline exists exactly when an item was processed,
      and the first item is always saved. */
  lemma {:induction false} ScanStarts<T, C>(xs: seq<T>, start: nat, i: nat, view: T -> C, exceeds: (C, C) -> bool)
    requires start + i <= |xs|
    ensures var p := Scan(xs, start, i, view, exceeds);
      (p.baseline.Some? <==> i > 0) && (p.saved == [] <==> i == 0) && (i > 0 ==> p.saved[0] == 0)
  {
    if i > 0 {
      ScanStarts(xs, start, i - 1, view, exceeds);
    }
  }

  /** The saved counters are strictly increasing and below the number of
      items processed: no item is saved twice. */
  lemma {:induction false} ScanIncreasing<T, C>(xs: seq<T>, start: nat, i: nat, view: T -> C, exceeds: (C, C) -> bool)
    requires start + i <= |xs|
    ensures Increasing(Scan(xs, start, i, view, exceeds).saved)
    ensures forall k | 0 <= k < |Scan(xs, start, i, view, exceeds).saved| :: Scan(xs, start, i, view, exceeds).saved[k] < i
  {
    if i > 0 {
      ScanIncreasing(xs, start, i - 1, view, exceeds);
    }
  }

  /** The baseline is the view of the last saved item, not merely of the item
      processed last. */
  lemma {:induction false} BaselineIsLastSaved<T, C>(xs: seq<T>, start: nat, i: nat, view: T -> C, exceeds: (C, C) -> bool)
    requires 0 < i && start + i <= |xs|
    ensures var p := Scan(xs, start, i, view, exceeds);
      p.saved != [] && p.saved[|p.saved| - 1] < i &&
      p.baseline == Some(view(xs[start + p.saved[|p.saved| - 1]]))
  {
    ScanStarts(xs, start, i - 1, view, exceeds);
    if i > 1 {
      BaselineIsLastSaved(xs, start, i - 1, view, exceeds);
    }
  }

  /** Decisions are never revised: the items saved among the first `j` stay
      saved, in front, and every item saved later comes after them. */
  lemma {:induction false} ScanPrefix<T, C>(xs: seq<T>, start: nat, j: nat, i: nat, view: T -> C, exceeds: (C, C) -> bool)
    requires j <= i && start + i <= |xs|
    ensures var early, late := Scan(xs, start, j, view, exceeds).saved, Scan(xs, start, i, view, exceeds).saved;
      |early| <= |late| && late[..|early|] == early &&
      forall k | |early| <= k < |late| :: j <= late[k]
  {
    if j < i {
      ScanPrefix(xs, start, j, i - 1, view, exceeds);
      var early := Scan(xs, start, j, view, exceeds).saved;
      var mid := Scan(xs, start, i - 1, view, exceeds).saved;
      var late := Scan(xs, start, i, view, exceeds).saved;
      assert late == mid || late == mid + [i - 1];
      if late != mid {
        assert late[..|early|] == mid[..|early|];
      }
    }
  }

  /** The item with counter `j` is saved exactly when it is the first item or
      its view exceeds the baseline left by the items before it, which is the
      view of the last item saved before it (`BaselineIsLastSaved`). */
  lemma SavedIff<T, C>(xs: seq<T>, start: nat, j: nat, i: nat, view: T -> C, exceeds: (C, C) -> bool)
    requires j < i && start + i <= |xs|
    ensures var base := Scan(xs, start, j, view, exceeds).baseline;
      j in Scan(xs, start, i, view, exceeds).saved <==>
        j == 0 || (base.Some? && exceeds(base.value, view(xs[start + j])))
  {
    ScanStarts(xs, start, j, view, exceeds);
    ScanIncreasing(xs, start, j, view, exceeds);
    ScanPrefix(xs, start, j + 1, i, view, exceeds);
    var before := Scan(xs, start, j, view, exceeds).saved;
    var next := Scan(xs, start, j + 1, view, exceeds).saved;
    var all := Scan(xs, start, i, view, exceeds).saved;
    assert start + (j + 1) - 1 == start + j;
    assert j !in before;
    if j in all {
      var k :| 0 <= k < |all| && all[k] == j;
      if k >= |next| {
        assert j + 1 <= all[k];
      }
      assert j in next;
    } else {
      assert forall k | 0 <= k < |next| :: next[k] == all[k];
    }
  }

  /** When no view ever exceeds the first one, only the first item is saved
      and it stays the baseline. */
  lemma {:induction false} NeverExceededSavesFirstOnly<T, C>(xs: seq<T>, start: nat, i: nat, view: T -> C, exceeds: (C, C) -> bool)
    requires 0 < i && start + i <= |xs|
    requires forall k | start <= k < start + i :: !exceeds(view(xs[start]), view(xs[k]))
    ensures Scan(xs, start, i, view, exceeds) == Progress(Some(view(xs[start])), [0])
  {
    if i > 1 {
      NeverExceededSavesFirstOnly(xs, start, i - 1, view, exceeds);
      assert start + i - 1 < start + i;
    }
  }

  /** When every view exceeds every other, every item is saved. */
  lemma {:induction false} AlwaysExceededSavesAll<T, C(!new)>(xs: seq<T>, start: nat, i: nat, view: T -> C, exceeds: (C, C) -> bool)
    requires start + i <= |xs|
    requires forall b: C, c: C :: exceeds(b, c)
    ensures Scan(xs, start, i, view, exceeds).saved == seq(i, k => k)
  {
    if i > 0 {
      AlwaysExceededSavesAll(xs, start, i - 1, view, exceeds);
      var p := Scan(xs, start, i - 1, view, exceeds);
      var item := view(xs[start + i - 1]);
      if p.baseline.Some? {
        var base := p.baseline.value;
        assert exceeds(base, item);
      }
      assert Scan(xs, start, i, view, exceeds).saved == p.saved + [i - 1];
      assert seq(i, k => k) == seq(i - 1, k => k) + [i - 1];
    }
  }

  /** The crop capture keeps of a frame. */
  function CropView(area: Roi): Grid -> Grid
  {
    frame => TabCrop(frame, area)
  }

  /** The capture's test: a crop is saved when it differs from the baseline
      by strictly more than `threshold` per cent. */
  function Exceeds(threshold: real): (Grid, Grid) -> bool
  {
    (base, crop) => ChangePercent(base, crop, PixelDelta) > threshold
  }

  /** The capture loop's memory after processing the `i` frames from `start`
      on. */
  function Run(frames: seq<Grid>, start: nat, area: Roi, threshold: real, i: nat): Progress<Grid>
    requires start + i <= |frames|
  {
    Scan(frames, start, i, CropView(area), Exceeds(threshold))
  }

  /** With a threshold of 100 per cent or more only the first frame is ever
      saved: no two crops differ by more than every pixel. */
  lemma FullThresholdSavesFirstOnly(frames: seq<Grid>, start: nat, area: Roi, threshold: real, i: nat)
    requires threshold >= 100.0 && 0 < i && start + i <= |frames|
    ensures Run(frames, start, area, threshold, i).saved == [0]
  {
    NeverExceededSavesFirstOnly(frames, start, i, CropView(area), Exceeds(threshold));
  }

  /** With a negative threshold every frame is saved, each under its own
      counter. */
  lemma NegativeThresholdSavesAll(frames: seq<Grid>, start: nat, area: Roi, threshold: real, i: nat)
    requires threshold < 0.0 && start + i <= |frames|
    ensures Run(frames, start, area, threshold, i).saved == seq(i, k => k)
  {
    AlwaysExceededSavesAll(frames, start, i, CropView(area), Exceeds(threshold));
  }

  /** A tab area that never changes gives exactly one screenshot, the first,
      at any threshold that is not negative. */
  lemma StaticAreaSavesFirstOnly(frames: seq<Grid>, start: nat, area: Roi, threshold: real, i: nat)
    requires threshold >= 0.0 && 0 < i && start + i <= |frames|
    requires forall k | start <= k < start + i :: TabCrop(frames[k], area) == TabCrop(frames[start], area)
    ensures Run(frames, start, area, threshold, i).saved == [0]
  {
    IdenticalNoChange(TabCrop(frames[start], area), PixelDelta);
    NeverExceededSavesFirstOnly(frames, start, i, CropView(area), Exceeds(threshold));
  }

  /** How many frames the loop processes from `start`: a frame is processed
      when it can be read and the position after reading it is still before
      `endFrame`; none from a closed capture. */
  function Processed(isOpen: bool, total: nat, start: nat, endFrame: int): (n: nat)
    requires start <= total
    ensures start + n <= total
    ensures !isOpen ==> n == 0
    ensures n > 0 ==> start + n < endFrame
    ensures isOpen ==> start + n == total || start + n + 1 >= endFrame
  {
    if !isOpen then 0
    else
      var last := if endFrame - 1 < total then endFrame - 1 else total;
      if last <= start then 0 else last - start
  }

  /** The loop has processed all its frames once the next read fails or
      reaches the end boundary. */
  lemma ProcessedAll(isOpen: bool, total: nat, start: nat, endFrame: int, count: nat)
    requires start + count <= total && count <= Processed(isOpen, total, start, endFrame)
    requires !isOpen || start + count == total || start + count + 1 >= endFrame
    ensures count == Processed(isOpen, total, start, endFrame)
  {
  }

  /** A frame that can be read and ends before the boundary is processed. */
  lemma ProcessedMore(isOpen: bool, total: nat, start: nat, endFrame: int, count: nat)
    requires isOpen && start + count < total && start + count + 1 < endFrame
    requires count <= Processed(isOpen, total, start, endFrame)
    ensures count < Processed(isOpen, total, start, endFrame)
  {
  }

  /** Every frame the loop processes, and so every frame it saves, lies
      before the end boundary and before the end of the stream. */
  lemma SavedBeforeBoundary(frames: seq<Grid>, isOpen: bool, start: nat, endFrame: int, area: Roi, threshold: real)
    requires start <= |frames|
    ensures var n := Processed(isOpen, |frames|, start, endFrame);
      forall k | 0 <= k < |Run(frames, start, area, threshold, n).saved| ::
        var q := start + Run(frames, start, area, threshold, n).saved[k];
        q < |frames| && q + 1 < endFrame
  {
    var n := Processed(isOpen, |frames|, start, endFrame);
    ScanIncreasing(frames, start, n, CropView(area), Exceeds(threshold));
  }

  /** Processing the frame at `at`, the next one, saves it and makes its crop
      the baseline when there is no baseline yet or when it differs from the
      baseline by more than `threshold` per cent; otherwise nothing changes. */
  lemma RunNext(frames: seq<Grid>, start: nat, area: Roi, threshold: real, i: nat, at: nat)
    requires at == start + i && at < |frames|
    ensures var p, c := Run(frames, start, area, threshold, i), TabCrop(frames[at], area);
      var q := Run(frames, start, area, threshold, i + 1);
      if p.baseline.None? || ChangePercent(p.baseline.value, c, PixelDelta) > threshold
      then q.baseline == Some(c) && Paths(q.saved) == Paths(p.saved) + [FramePath(i)]
      else q == p
  {
    assert start + (i + 1) - 1 == at;
    var p, c := Run(frames, start, area, threshold, i), TabCrop(frames[at], area);
    assert CropView(area)(frames[at]) == c;
    if p.baseline.Some? {
      assert Exceeds(threshold)(p.baseline.value, c) == (ChangePercent(p.baseline.value, c, PixelDelta) > threshold);
    }
    PathsSnoc(p.saved, i);
  }

  /** The loop of `capture_tab_frames`: returns the paths of the saved
      frames, or fails on the first (empty) crop. The cursor ends after the
      last frame read, including the one read at the boundary. */
  method CaptureLoop(cap: VideoCapture, area: Roi, threshold: real, endFrame: int)
    returns (r: Result<seq<string>, CropError>)
    requires cap.Valid()
    modifies cap`pos
    ensures cap.Valid()
    ensures var n := Processed(cap.isOpen, |cap.frames|, old(cap.pos), endFrame);
      (r.Failure? <==> n > 0 && TabCropEmpty(area, cap.width, cap.height)) &&
      (r.Success? ==> r.value == Paths(Run(cap.frames, old(cap.pos), area, threshold, n).saved)) &&
      cap.pos == if r.Failure? then old(cap.pos) + 1
                 else if cap.isOpen && old(cap.pos) + n < |cap.frames| then old(cap.pos) + n + 1
                 else old(cap.pos) + n
  {
    ghost var p0 := cap.pos;
    ghost var n := Processed(cap.isOpen, |cap.frames|, p0, endFrame);
    ghost var empty := TabCropEmpty(area, cap.width, cap.height);

    var imagePaths: seq<string> := [];
    var prevCroppedGray: Option<Grid> := None;
    var frameCount := 0;
    while cap.isOpen
      invariant cap.Valid()
      invariant 0 <= frameCount <= n && cap.pos == p0 + frameCount
      invariant frameCount > 0 ==> !empty
      invariant prevCroppedGray == Run(cap.frames, p0, area, threshold, frameCount).baseline
      invariant imagePaths == Paths(Run(cap.frames, p0, area, threshold, frameCount).saved)
      decreases |cap.frames| - cap.pos
    {
      ghost var at := cap.pos;
      var ok, frame := cap.Read();
      if !ok {
        ProcessedAll(cap.isOpen, |cap.frames|, p0, endFrame, frameCount);
        break;
      }
      if cap.pos >= endFrame {
        ProcessedAll(cap.isOpen, |cap.frames|, p0, endFrame, frameCount);
        break;
      }
      ProcessedMore(cap.isOpen, |cap.frames|, p0, endFrame, frameCount);
      var cropped := TabCrop(frame, area);
      TabCropSize(frame, cap.width, cap.height, area);
      if Size(cropped) == 0 {
        return Failure(EmptyCrop);
      }
      RunNext(cap.frames, p0, area, threshold, frameCount, at);
      if prevCroppedGray.Some? {
        var changePercent := ChangePercent(prevCroppedGray.value, cropped, PixelDelta);
        if changePercent > threshold {
          imagePaths := imagePaths + [FramePath(frameCount)];
          prevCroppedGray := Some(cropped);
        }
      } else {
        imagePaths := imagePaths + [FramePath(frameCount)];
        prevCroppedGray := Some(cropped);
      }
      frameCount := frameCount + 1;
    }
    r := Success(imagePaths);
  }

  /** `capture_tab_frames`: the end boundary is `total_frames - int(end_time
      * fps)`; the loop then saves the screenshots. */
  method CaptureTabFrames(cap: VideoCapture, fps: real, tabArea: Roi, similarityThreshold: real, endTime: real)
    returns (r: Result<seq<string>, CropError>)
    requires cap.Valid()
    modifies cap`pos
    ensures cap.Valid()
    ensures var n := Processed(cap.isOpen, |cap.frames|, old(cap.pos), EndFrame(|cap.frames|, fps, endTime));
      (r.Failure? <==> n > 0 && TabCropEmpty(tabArea, cap.width, cap.height)) &&
      (r.Success? ==> r.value == Paths(Run(cap.frames, old(cap.pos), tabArea, similarityThreshold, n).saved)) &&
      cap.pos == if r.Failure? then old(cap.pos) + 1
                 else if cap.isOpen && old(cap.pos) + n < |cap.frames| then old(cap.pos) + n + 1
                 else old(cap.pos) + n
  {
    var endFrame := EndFrame(cap.TotalFrames(), fps, endTime);
    r := CaptureLoop(cap, tabArea, similarityThreshold, endFrame);
  }
}
