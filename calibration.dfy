/** `auto_detect_threshold`: samples the change between consecutive frames of
    the tab area, keeps the significant ones, and derives the capture
    threshold from their mean and spread. */
module Calibration {
  import opened Basics
  import opened Grids
  import opened ChangeDetection
  import opened Region
  import opened Video

  /** Only samples strictly above 1 per cent are kept. */
  const SignificanceFloor: real := 1.0
  /** Fewer kept samples than this fall back to the default. */
  const MinSamples: nat := 5
  /** The fallback threshold, in per cent. */
  const DefaultThreshold: real := 10.0
  /** The spread multiplier of the command-line tool (makeTabs.py). */
  const CliMultiplier: real := 2.0
  /** The spread multiplier of the web service (app/util/video_tools.py). */
  const ServiceMultiplier: real := 1.5

  /** The calibrated threshold: a fixed percentage (the fallback), or an
      estimate. `Estimated` stands for `round(mean + k * sqrt(variance), 2)`
      over the kept samples; the square root and the rounding are not
      computed here. */
  datatype Threshold =
    | Fixed(percent: real)
    | Estimated(mean: real, variance: real, k: real)

  /** The change between each frame and the frame just before it: `Pairwise`
      with the percentage at a fixed pixel delta. */
  function ConsecutiveChanges(crops: seq<Grid>, delta: int): (cs: seq<real>)
    ensures |crops| > 0 ==> |cs| == |crops| - 1
    ensures |crops| == 0 ==> cs == []
    ensures forall j | 0 <= j < |cs| :: cs[j] == ChangePercent(crops[j], crops[j + 1], delta)
  {
    Pairwise(crops, Percent(delta))
  }

  /** The values strictly above `floor`, in their original order. */
  function KeepAbove(xs: seq<real>, floor: real): (r: seq<real>)
    ensures |r| <= |xs|
    ensures forall i | 0 <= i < |r| :: r[i] > floor
  {
    if xs == [] then []
    else (if xs[0] > floor then [xs[0]] else []) + KeepAbove(xs[1..], floor)
  }

  /** `KeepAbove` keeps exactly the values above the floor: it drops nothing
      above it and adds nothing. */
  lemma {:induction false} KeepAboveMembers(xs: seq<real>, floor: real)
    ensures forall x :: x in KeepAbove(xs, floor) <==> x in xs && x > floor
  {
    if xs != [] {
      KeepAboveMembers(xs[1..], floor);
      assert forall x :: x in xs <==> x == xs[0] || x in xs[1..];
    }
  }

  /** Nothing is kept when no value is above the floor. */
  lemma {:induction false} KeepAboveNone(xs: seq<real>, floor: real)
    requires forall i | 0 <= i < |xs| :: xs[i] <= floor
    ensures KeepAbove(xs, floor) == []
  {
    if xs != [] {
      assert forall i | 0 <= i < |xs[1..]| :: xs[1..][i] == xs[i + 1];
      KeepAboveNone(xs[1..], floor);
    }
  }

  lemma {:induction false} KeepAboveAppend(xs: seq<real>, ys: seq<real>, floor: real)
    ensures KeepAbove(xs + ys, floor) == KeepAbove(xs, floor) + KeepAbove(ys, floor)
  {
    if xs != [] {
      var head := if xs[0] > floor then [xs[0]] else [];
      assert (xs + ys)[0] == xs[0];
      assert (xs + ys)[1..] == xs[1..] + ys;
      calc {
        KeepAbove(xs + ys, floor);
        head + KeepAbove(xs[1..] + ys, floor);
        { KeepAboveAppend(xs[1..], ys, floor); }
        head + (KeepAbove(xs[1..], floor) + KeepAbove(ys, floor));
        (head + KeepAbove(xs[1..], floor)) + KeepAbove(ys, floor);
        KeepAbove(xs, floor) + KeepAbove(ys, floor);
      }
    } else {
      assert xs + ys == ys;
    }
  }

  /** The samples calibration keeps. */
  function Samples(crops: seq<Grid>, delta: int): seq<real>
  {
    KeepAbove(ConsecutiveChanges(crops, delta), SignificanceFloor)
  }

  /** Reading one more frame adds at most one sample: its change against the
      frame read just before it, kept when above the floor. */
  lemma SamplesSnoc(crops: seq<Grid>, n: nat, delta: int)
    requires |crops| == n + 1 && n >= 1
    ensures var c := ChangePercent(crops[n - 1], crops[n], delta);
      Samples(crops, delta) == Samples(crops[..n], delta) + (if c > SignificanceFloor then [c] else [])
  {
    var c := ChangePercent(crops[n - 1], crops[n], delta);
    var before, after := ConsecutiveChanges(crops[..n], delta), ConsecutiveChanges(crops, delta);
    assert |after| == |before| + 1;
    forall j | 0 <= j < |before|
      ensures after[j] == before[j]
    {
      assert crops[j] == crops[..n][j] && crops[j + 1] == crops[..n][j + 1];
    }
    assert after[n - 1] == c;
    assert after == before + [c];
    KeepAboveAppend(before, [c], SignificanceFloor);
  }

  /** Every kept sample is a change percentage strictly above the floor, made
      between two consecutive frames; no more samples than frame pairs. */
  lemma SamplesAreSignificantChanges(crops: seq<Grid>, delta: int)
    ensures |Samples(crops, delta)| <= if |crops| == 0 then 0 else |crops| - 1
    ensures forall i | 0 <= i < |Samples(crops, delta)| ::
      SignificanceFloor < Samples(crops, delta)[i] <= 100.0
    ensures forall i | 0 <= i < |Samples(crops, delta)| ::
      exists j | 0 <= j < |crops| - 1 :: Samples(crops, delta)[i] == ChangePercent(crops[j], crops[j + 1], delta)
  {
    var cs := ConsecutiveChanges(crops, delta);
    var xs := Samples(crops, delta);
    KeepAboveMembers(cs, SignificanceFloor);
    forall i | 0 <= i < |xs|
      ensures SignificanceFloor < xs[i] <= 100.0
      ensures exists j | 0 <= j < |crops| - 1 :: xs[i] == ChangePercent(crops[j], crops[j + 1], delta)
    {
      assert xs[i] in cs;
      var j :| 0 <= j < |cs| && cs[j] == xs[i];
    }
  }

  /** A tab area that never changes yields no samples at all. */
  lemma StaticAreaHasNoSamples(crops: seq<Grid>, delta: int)
    requires delta >= 0
    requires forall j | 0 <= j < |crops| :: crops[j] == crops[0]
    ensures Samples(crops, delta) == []
  {
    var cs := ConsecutiveChanges(crops, delta);
    forall j | 0 <= j < |cs|
      ensures cs[j] == 0.0
    {
      IdenticalNoChange(crops[j], delta);
    }
    KeepAboveNone(cs, SignificanceFloor);
  }

  function Sum(xs: seq<real>): real
  {
    if xs == [] then 0.0 else xs[0] + Sum(xs[1..])
  }

  /** `np.mean` */
  function Mean(xs: seq<real>): real
    requires |xs| > 0
  {
    Sum(xs) / |xs| as real
  }

  function SumSquares(xs: seq<real>, m: real): (s: real)
    ensures s >= 0.0
  {
    if xs == [] then 0.0
    else
      var d := xs[0] - m;
      assert d * d >= 0.0;
      d * d + SumSquares(xs[1..], m)
  }

  /** The population variance, `np.std(xs) ** 2`. */
  function Variance(xs: seq<real>): real
    requires |xs| > 0
  {
    SumSquares(xs, Mean(xs)) / |xs| as real
  }

  /** With fewer than five kept samples the default; otherwise the estimate
      from their mean and variance with multiplier `k`. */
  function Decide(samples: seq<real>, k: real): (t: Threshold)
    ensures t.Fixed? <==> |samples| < MinSamples
    ensures t.Fixed? ==> t.percent == DefaultThreshold
    ensures t.Estimated? ==> t.k == k && t.mean == Mean(samples) && t.variance == Variance(samples)
  {
    if |samples| < MinSamples then Fixed(DefaultThreshold)
    else Estimated(Mean(samples), Variance(samples), k)
  }

  lemma {:induction false} SumBounds(xs: seq<real>, lo: real, hi: real)
    requires forall i | 0 <= i < |xs| :: lo < xs[i] <= hi
    ensures |xs| as real * lo <= Sum(xs) <= |xs| as real * hi
    ensures |xs| > 0 ==> |xs| as real * lo < Sum(xs)
  {
    if xs != [] {
      SumBounds(xs[1..], lo, hi);
      assert (|xs| - 1) as real * lo + lo == |xs| as real * lo;
      assert (|xs| - 1) as real * hi + hi == |xs| as real * hi;
    }
  }

  /** The mean of the kept samples lies above the significance floor and at
      most at 100 per cent, and their variance is never negative: an estimated
      threshold `mean + k * std` with `k >= 0` is above 1 per cent. */
  lemma EstimateBounds(crops: seq<Grid>, delta: int, k: real)
    ensures var t := Decide(Samples(crops, delta), k);
      t.Estimated? ==> SignificanceFloor < t.mean <= 100.0 && t.variance >= 0.0
  {
    var xs := Samples(crops, delta);
    var t := Decide(xs, k);
    if |xs| >= MinSamples {
      SamplesAreSignificantChanges(crops, delta);
      MeanBounds(xs);
      VarianceNonnegative(xs);
      assert t.mean == Mean(xs) && t.variance == Variance(xs);
    }
  }

  lemma VarianceNonnegative(xs: seq<real>)
    requires |xs| > 0
    ensures Variance(xs) >= 0.0
  {
    var ss := SumSquares(xs, Mean(xs));
    var n := |xs| as real;
    assert ss >= 0.0 && n > 0.0;
    assert ss / n >= 0.0;
  }

  lemma MeanBounds(xs: seq<real>)
    requires |xs| > 0
    requires forall i | 0 <= i < |xs| :: SignificanceFloor < xs[i] <= 100.0
    ensures SignificanceFloor < Mean(xs) <= 100.0
  {
    SumBounds(xs, SignificanceFloor, 100.0);
    MeanBetween(Sum(xs), |xs| as real, SignificanceFloor, 100.0);
  }

  /** A capture that never changes in the tab area falls back to 10 per cent. */
  lemma StaticAreaFallsBack(crops: seq<Grid>, delta: int, k: real)
    requires delta >= 0
    requires forall j | 0 <= j < |crops| :: crops[j] == crops[0]
    ensures Decide(Samples(crops, delta), k) == Fixed(DefaultThreshold)
  {
    StaticAreaHasNoSamples(crops, delta);
  }

  /** How many frames calibration reads from `start`: up to `int(seconds * fps)`,
      fewer when the stream ends first, none from a closed capture. */
  function SampleWindow(isOpen: bool, total: nat, start: nat, limit: int): (n: nat)
    requires start <= total
    ensures start + n <= total
    ensures n <= if limit < 0 then 0 else limit
    ensures isOpen && 0 <= limit && start + limit <= total ==> n == limit
    ensures isOpen && 0 <= limit && start + limit > total ==> start + n == total
  {
    if !isOpen || limit <= 0 then 0
    else if start + limit <= total then limit
    else total - start
  }

  /** The crop of the tab area is empty on frames of this size. */
  predicate AreaCropEmpty(area: Roi, width: nat, height: nat)
  {
    SliceLen(area.y, area.y + area.height, height) == 0 ||
    SliceLen(area.x, area.x + area.width, width) == 0
  }

  /** Cropping a frame of the capture gives an empty crop exactly when the
      area's crop is empty on frames of that size. */
  lemma AreaCropSize(frame: Grid, width: nat, height: nat, area: Roi)
    requires Shaped(frame, height, width)
    ensures Size(AreaCrop(frame, area)) == 0 <==> AreaCropEmpty(area, width, height)
  {
    CropShape(frame, height, width, area.y, area.y + area.height, area.x, area.x + area.width);
    SizeOfShaped(AreaCrop(frame, area), SliceLen(area.y, area.y + area.height, height),
                 SliceLen(area.x, area.x + area.width, width));
  }

  /** Any two plain crops of one capture can be compared pixel by pixel when
      the area's crop is not empty. */
  lemma AreaCropsComparable(f: Grid, g: Grid, width: nat, height: nat, area: Roi)
    requires Shaped(f, height, width) && Shaped(g, height, width)
    requires !AreaCropEmpty(area, width, height)
    ensures Comparable(AreaCrop(f, area), AreaCrop(g, area))
  {
    var rows, cols := SliceLen(area.y, area.y + area.height, height), SliceLen(area.x, area.x + area.width, width);
    CropShaped(f, height, width, area.y, area.y + area.height, area.x, area.x + area.width);
    CropShaped(g, height, width, area.y, area.y + area.height, area.x, area.x + area.width);
    ShapedComparable(AreaCrop(f, area), AreaCrop(g, area), rows, cols);
  }


  /** The tab area of every frame of the video. */
  function AreaCrops(frames: seq<Grid>, area: Roi): (crops: seq<Grid>)
    ensures |crops| == |frames|
    ensures forall k | 0 <= k < |frames| :: crops[k] == AreaCrop(frames[k], area)
  {
    CropAll(frames, area.y, area.y + area.height, area.x, area.x + area.width)
  }

  /** A window of fewer than two crops has no pair to compare. */
  lemma ShortWindowHasNoSamples(crops: seq<Grid>, delta: int)
    requires |crops| < 2
    ensures Samples(crops, delta) == []
  {
    assert ConsecutiveChanges(crops, delta) == [];
  }

  /** Reading one more crop adds at most one sample: none for the first crop,
      otherwise its change against the crop read just before it, kept when
      above the floor. */
  lemma SamplesAppend(window: seq<Grid>, x: Grid, delta: int)
    ensures |window| == 0 ==> Samples(window + [x], delta) == []
    ensures |window| > 0 ==>
      var c := ChangePercent(window[|window| - 1], x, delta);
      Samples(window + [x], delta) == Samples(window, delta) + (if c > SignificanceFloor then [c] else [])
  {
    var w := window + [x];
    if |window| == 0 {
      ShortWindowHasNoSamples(w, delta);
    } else {
      var n := |window|;
      assert w[..n] == window;
      assert w[n - 1] == window[n - 1] && w[n] == x;
      SamplesSnoc(w, n, delta);
    }
  }

  /** The outcome of calibrating over the `count` frames from `start` on, the
      frames the loop reads, on frames of `width` by `height` pixels: OpenCV
      fails on the first (empty) crop, otherwise the significant consecutive
      changes of the crops decide. */
  function CalibrationOutcome(frames: seq<Grid>, start: nat, count: nat, width: nat, height: nat, area: Roi,
                              delta: int, k: real): (r: Result<Threshold, CropError>)
    requires start + count <= |frames|
    ensures r.Failure? <==> count > 0 && AreaCropEmpty(area, width, height)
    ensures count < MinSamples + 1 ==> r.Success? ==> r.value == Fixed(DefaultThreshold)
  {
    if count > 0 && AreaCropEmpty(area, width, height) then Failure(EmptyCrop)
    else
      var crops := AreaCrops(frames[start..start + count], area);
      Success(Decide(Samples(crops, delta), k))
  }

  /** A change is kept as a sample when strictly above the floor. */
  function Kept(c: real): seq<real>
  {
    if c > SignificanceFloor then [c] else []
  }

  /** The change measured between two consecutive items of a sequence, one
      item after the other. */
  function Pairwise<T>(ys: seq<T>, change: (T, T) -> real): (cs: seq<real>)
    ensures |ys| > 0 ==> |cs| == |ys| - 1
    ensures |ys| == 0 ==> cs == []
    ensures forall j | 0 <= j < |cs| :: cs[j] == change(ys[j], ys[j + 1])
  {
    if |ys| == 0 then []
    else seq(|ys| - 1, j requires 0 <= j < |ys| - 1 => change(ys[j], ys[j + 1]))
  }

  /** The samples a loop holds after reading the `i` items of `xs` from
      `start` on, when every item after the first adds its kept change against
      the item read just before it. */
  function Accumulated<T>(xs: seq<T>, start: nat, i: nat, change: (T, T) -> real): seq<real>
    requires start + i <= |xs|
  {
    if i <= 1 then []
    else Accumulated(xs, start, i - 1, change) + Kept(change(xs[start + i - 2], xs[start + i - 1]))
  }

  /** Accumulating the kept changes one item at a time keeps exactly the
      consecutive changes of the items read that are above the floor. */
  lemma {:induction false} AccumulatedIsKeepAbove<T>(xs: seq<T>, start: nat, i: nat, change: (T, T) -> real)
    requires start + i <= |xs|
    ensures Accumulated(xs, start, i, change) ==
      KeepAbove(Pairwise(xs[start..start + i], change), SignificanceFloor)
  {
    if i >= 2 {
      var c := change(xs[start + i - 2], xs[start + i - 1]);
      calc {
        Accumulated(xs, start, i, change);
        Accumulated(xs, start, i - 1, change) + Kept(c);
        { AccumulatedIsKeepAbove(xs, start, i - 1, change); }
        KeepAbove(Pairwise(xs[start..start + (i - 1)], change), SignificanceFloor) + Kept(c);
        { KeepAboveStep(xs, start, i, change); }
        KeepAbove(Pairwise(xs[start..start + i], change), SignificanceFloor);
      }
    } else {
      AccumulatedShort(xs, start, i, change);
    }
  }

  /** Fewer than two items read: nothing accumulated and no pair compared. */
  lemma AccumulatedShort<T>(xs: seq<T>, start: nat, i: nat, change: (T, T) -> real)
    requires i <= 1 && start + i <= |xs|
    ensures Accumulated(xs, start, i, change) == []
    ensures KeepAbove(Pairwise(xs[start..start + i], change), SignificanceFloor) == []
  {
    assert Pairwise(xs[start..start + i], change) == [];
  }

  /** Reading one more item adds to the kept consecutive changes the kept
      change of the new item against the item before it. */
  lemma KeepAboveStep<T>(xs: seq<T>, start: nat, i: nat, change: (T, T) -> real)
    requires 2 <= i && start + i <= |xs|
    ensures KeepAbove(Pairwise(xs[start..start + i], change), SignificanceFloor) ==
      KeepAbove(Pairwise(xs[start..start + (i - 1)], change), SignificanceFloor) +
        Kept(change(xs[start + i - 2], xs[start + i - 1]))
  {
    var c := change(xs[start + i - 2], xs[start + i - 1]);
    var before := Pairwise(xs[start..start + (i - 1)], change);
    PairwiseSnoc(xs, start, i, change);
    KeepAboveAppend(before, [c], SignificanceFloor);
    KeepAboveSingle(c);
  }

  /** One more item adds its change against the item before it. */
  lemma PairwiseSnoc<T>(xs: seq<T>, start: nat, i: nat, change: (T, T) -> real)
    requires 2 <= i && start + i <= |xs|
    ensures Pairwise(xs[start..start + i], change) ==
      Pairwise(xs[start..start + (i - 1)], change) + [change(xs[start + i - 2], xs[start + i - 1])]
  {
    var shorter, longer := xs[start..start + (i - 1)], xs[start..start + i];
    var before, after := Pairwise(shorter, change), Pairwise(longer, change);
    assert |after| == |before| + 1;
    forall j | 0 <= j < |before|
      ensures after[j] == before[j]
    {
      assert longer[j] == shorter[j] && longer[j + 1] == shorter[j + 1];
    }
    assert after[i - 2] == change(xs[start + i - 2], xs[start + i - 1]);
  }

  lemma KeepAboveSingle(c: real)
    ensures KeepAbove([c], SignificanceFloor) == Kept(c)
  {
    assert [c][1..] == [];
  }

  /** Reading the item at `at`, the next one, extends the samples by its
      change against the item at `prev` read just before it. */
  lemma AccumulatedNext<T>(xs: seq<T>, start: nat, i: nat, change: (T, T) -> real, prev: nat, at: nat)
    requires at == start + i && at < |xs|
    requires i > 0 ==> prev + 1 == at
    ensures i == 0 ==> Accumulated(xs, start, i + 1, change) == []
    ensures i > 0 ==>
      Accumulated(xs, start, i + 1, change) == Accumulated(xs, start, i, change) + Kept(change(xs[prev], xs[at]))
  {
    var j := i + 1;
    assert j - 1 == i;
    if i > 0 {
      assert start + j - 2 == prev && start + j - 1 == at;
    }
  }

  /** Cropping to the tab area, as a function value. The loop's specification
      goes through these function values rather than calling `AreaCrop` and
      `ChangePercent` directly, so that the verifier unfolds the crop and the
      percentage only where a proof asks for them. */
  function AreaView(area: Roi): Grid -> Grid
  {
    g => AreaCrop(g, area)
  }

  /** `ChangePercent` at a fixed pixel delta, as a function value. */
  function Percent(delta: int): (Grid, Grid) -> real
  {
    (a: Grid, b: Grid) => ChangePercent(a, b, delta)
  }

  /** The change between the tab areas of two frames. */
  function FrameChange(area: Roi, delta: int): (Grid, Grid) -> real
  {
    (x: Grid, y: Grid) => Percent(delta)(AreaView(area)(x), AreaView(area)(y))
  }

  /** The change between two frames is the percentage between their crops. */
  lemma FrameChangeOf(area: Roi, delta: int, x: Grid, y: Grid)
    ensures FrameChange(area, delta)(x, y) == ChangePercent(AreaCrop(x, area), AreaCrop(y, area), delta)
  {
    var a, b := AreaCrop(x, area), AreaCrop(y, area);
    assert AreaView(area)(x) == a && AreaView(area)(y) == b;
    assert Percent(delta)(a, b) == ChangePercent(a, b, delta);
  }

  /** The samples the calibration loop holds after reading the `i` frames
      from `start` on. */
  function WindowSamples(frames: seq<Grid>, start: nat, area: Roi, delta: int, i: nat): seq<real>
    requires start + i <= |frames|
  {
    Accumulated(frames, start, i, FrameChange(area, delta))
  }

  /** Reading the frame at `at`, the next of the window, extends the samples
      by its change against the frame at `prev` read just before it. */
  lemma WindowSamplesNext(frames: seq<Grid>, start: nat, area: Roi, delta: int, i: nat, prev: nat, at: nat)
    requires at == start + i && at < |frames|
    requires i > 0 ==> prev + 1 == at
    ensures i == 0 ==> WindowSamples(frames, start, area, delta, i + 1) == []
    ensures i > 0 ==>
      WindowSamples(frames, start, area, delta, i + 1) ==
        WindowSamples(frames, start, area, delta, i) +
          Kept(ChangePercent(AreaCrop(frames[prev], area), AreaCrop(frames[at], area), delta))
  {
    var change := FrameChange(area, delta);
    AccumulatedNext(frames, start, i, change, prev, at);
    if i > 0 {
      FrameChangeOf(area, delta, frames[prev], frames[at]);
    }
  }

  /** The loop keeps exactly the significant consecutive changes of the crops
      of the frames read so far. */
  lemma WindowSamplesAreSamples(frames: seq<Grid>, start: nat, area: Roi, delta: int, i: nat)
    requires start + i <= |frames|
    ensures WindowSamples(frames, start, area, delta, i) == Samples(AreaCrops(frames[start..start + i], area), delta)
  {
    var change := FrameChange(area, delta);
    AccumulatedIsKeepAbove(frames, start, i, change);
    var window := frames[start..start + i];
    var crops := AreaCrops(window, area);
    var p, c := Pairwise(window, change), ConsecutiveChanges(crops, delta);
    assert |p| == |c|;
    forall j | 0 <= j < |p|
      ensures p[j] == c[j]
    {
      assert crops[j] == AreaCrop(window[j], area) && crops[j + 1] == AreaCrop(window[j + 1], area);
      FrameChangeOf(area, delta, window[j], window[j + 1]);
    }
    assert p == c;
  }

  /** The calibration outcome, in terms of the samples the loop keeps. */
  lemma OutcomeOfWindow(frames: seq<Grid>, start: nat, count: nat, width: nat, height: nat, area: Roi,
                        delta: int, k: real)
    requires start + count <= |frames|
    ensures CalibrationOutcome(frames, start, count, width, height, area, delta, k) ==
      if count > 0 && AreaCropEmpty(area, width, height) then Failure(EmptyCrop)
      else Success(Decide(WindowSamples(frames, start, area, delta, count), k))
  {
    WindowSamplesAreSamples(frames, start, area, delta, count);
  }

  /** The crop the calibration loop compares the next frame with, after
      reading the `i` frames from `start` on: none before the first frame,
      then the crop of the frame read last. */
  function PreviousCrop(frames: seq<Grid>, start: nat, area: Roi, i: nat): Option<Grid>
    requires start + i <= |frames|
  {
    if i == 0 then None else Some(AreaView(area)(frames[start + i - 1]))
  }

  /** One iteration of the calibration loop: the crop of the frame read is
      compared with the previous crop, when there is one, the change is kept
      when significant, and the crop becomes the previous crop. */
  lemma SamplesStep(frames: seq<Grid>, start: nat, area: Roi, delta: int, i: nat,
                    prevGray: Option<Grid>, changes: seq<real>, frame: Grid)
    requires start + i < |frames| && frame == frames[start + i]
    requires prevGray == PreviousCrop(frames, start, area, i)
    requires changes == WindowSamples(frames, start, area, delta, i)
    ensures PreviousCrop(frames, start, area, i + 1) == Some(AreaCrop(frame, area))
    ensures WindowSamples(frames, start, area, delta, i + 1) ==
      if prevGray.Some? && ChangePercent(prevGray.value, AreaCrop(frame, area), delta) > SignificanceFloor
      then changes + [ChangePercent(prevGray.value, AreaCrop(frame, area), delta)]
      else changes
  {
    PreviousCropNext(frames, start, area, i);
    if i == 0 {
      WindowSamplesNext(frames, start, area, delta, i, 0, start + i);
    } else {
      WindowSamplesAfter(frames, start, area, delta, i);
      KeptAppended(changes, ChangePercent(prevGray.value, AreaCrop(frame, area), delta));
    }
  }

  /** After the first frame, each frame read adds its kept change against
      the previous crop. */
  lemma WindowSamplesAfter(frames: seq<Grid>, start: nat, area: Roi, delta: int, i: nat)
    requires 0 < i && start + i < |frames|
    ensures PreviousCrop(frames, start, area, i).Some?
    ensures WindowSamples(frames, start, area, delta, i + 1) ==
      WindowSamples(frames, start, area, delta, i) +
        Kept(ChangePercent(PreviousCrop(frames, start, area, i).value, AreaCrop(frames[start + i], area), delta))
  {
    WindowSamplesNext(frames, start, area, delta, i, start + i - 1, start + i);
    PreviousCropOf(frames, start, area, i);
  }

  /** After the frame at `start + i` is read, it is the previous crop. */
  lemma PreviousCropNext(frames: seq<Grid>, start: nat, area: Roi, i: nat)
    requires start + i < |frames|
    ensures PreviousCrop(frames, start, area, i + 1) == Some(AreaCrop(frames[start + i], area))
  {
    assert AreaView(area)(frames[start + i]) == AreaCrop(frames[start + i], area);
  }

  /** Once a frame has been read, the previous crop is the crop of the last
      frame read. */
  lemma PreviousCropOf(frames: seq<Grid>, start: nat, area: Roi, i: nat)
    requires 0 < i && start + i <= |frames|
    ensures PreviousCrop(frames, start, area, i) == Some(AreaCrop(frames[start + i - 1], area))
  {
    assert AreaView(area)(frames[start + i - 1]) == AreaCrop(frames[start + i - 1], area);
  }

  /** Appending the kept part of a change appends it exactly when significant. */
  lemma KeptAppended(changes: seq<real>, c: real)
    ensures changes + Kept(c) == if c > SignificanceFloor then changes + [c] else changes
  {
    if c <= SignificanceFloor {
      assert changes + [] == changes;
    }
  }

  /** The body of the calibration loop after a frame is read: crops the
      frame, compares the crop with the previous crop, when there is one,
      keeps the change when significant, and makes the crop the previous
      crop; an empty crop fails. */
  method SampleFrame(cap: VideoCapture, frame: Grid, area: Roi, delta: int, ghost start: nat, ghost i: nat,
                     prevGray: Option<Grid>, changes: seq<real>)
    returns (r: Result<(Option<Grid>, seq<real>), CropError>)
    requires cap.Valid() && start + i < |cap.frames| && frame == cap.frames[start + i]
    requires prevGray == PreviousCrop(cap.frames, start, area, i)
    requires changes == WindowSamples(cap.frames, start, area, delta, i)
    ensures r.Failure? <==> AreaCropEmpty(area, cap.width, cap.height)
    ensures r.Success? ==>
      r.value == (PreviousCrop(cap.frames, start, area, i + 1), WindowSamples(cap.frames, start, area, delta, i + 1))
  {
    var cropped := AreaCrop(frame, area);
    AreaCropSize(frame, cap.width, cap.height, area);
    if Size(cropped) == 0 {
      return Failure(EmptyCrop);
    }
    SamplesStep(cap.frames, start, area, delta, i, prevGray, changes, frame);
    var kept := changes;
    if prevGray.Some? {
      var changePercent := ChangePercent(prevGray.value, cropped, delta);
      if changePercent > SignificanceFloor {
        kept := changes + [changePercent];
      }
    }
    r := Success((Some(cropped), kept));
  }

  /** One iteration of the calibration loop: reads the next frame (none when
      the capture is closed or the stream has ended) and samples it. */
  method SampleNext(cap: VideoCapture, area: Roi, delta: int, ghost start: nat, ghost i: nat,
                    prevGray: Option<Grid>, changes: seq<real>)
    returns (r: Option<Result<(Option<Grid>, seq<real>), CropError>>)
    requires cap.Valid() && cap.pos == start + i
    requires prevGray == PreviousCrop(cap.frames, start, area, i)
    requires changes == WindowSamples(cap.frames, start, area, delta, i)
    modifies cap`pos
    ensures cap.Valid()
    ensures r.Some? <==> cap.isOpen && old(cap.pos) < |cap.frames|
    ensures cap.pos == if r.Some? then old(cap.pos) + 1 else old(cap.pos)
    ensures r.Some? ==> (r.value.Failure? <==> AreaCropEmpty(area, cap.width, cap.height))
    ensures r.Some? && r.value.Success? ==>
      r.value.value == (PreviousCrop(cap.frames, start, area, i + 1), WindowSamples(cap.frames, start, area, delta, i + 1))
  {
    var ok, frame := cap.Read();
    if !ok {
      return None;
    }
    var step := SampleFrame(cap, frame, area, delta, start, i, prevGray, changes);
    r := Some(step);
  }

  /** The calibration loop has read its whole window once the capture is
      closed, the limit is reached or the stream has ended. */
  lemma SampleWindowAll(isOpen: bool, total: nat, start: nat, limit: int, count: nat)
    requires start + count <= total && count <= SampleWindow(isOpen, total, start, limit)
    requires !isOpen || limit <= count || start + count == total
    ensures count == SampleWindow(isOpen, total, start, limit)
  {
  }

  /** A frame that can be read below the limit belongs to the window. */
  lemma SampleWindowMore(isOpen: bool, total: nat, start: nat, limit: int, count: nat)
    requires isOpen && count < limit && start + count < total
    requires count <= SampleWindow(isOpen, total, start, limit)
    ensures count < SampleWindow(isOpen, total, start, limit)
  {
  }

  /** The loop of calibration: reads up to `frameLimit` frames, compares each
      crop with the crop of the frame before it (the previous crop is
      replaced on every iteration, kept sample or not), and returns the kept
      samples, or fails on the first empty crop. The cursor ends after the
      last frame read. */
  method ReadSamples(cap: VideoCapture, area: Roi, frameLimit: int, delta: int)
    returns (r: Result<seq<real>, CropError>)
    requires cap.Valid()
    modifies cap`pos
    ensures cap.Valid()
    ensures var n := SampleWindow(cap.isOpen, |cap.frames|, old(cap.pos), frameLimit);
      (r.Failure? <==> n > 0 && AreaCropEmpty(area, cap.width, cap.height)) &&
      (r.Success? ==> r.value == WindowSamples(cap.frames, old(cap.pos), area, delta, n)) &&
      cap.pos == if r.Failure? then old(cap.pos) + 1 else old(cap.pos) + n
  {
    ghost var p0 := cap.pos;
    ghost var n := SampleWindow(cap.isOpen, |cap.frames|, p0, frameLimit);
    ghost var empty := AreaCropEmpty(area, cap.width, cap.height);

    var changes: seq<real> := [];
    var prevGray: Option<Grid> := None;
    var frameCount := 0;
    while cap.isOpen && frameCount < frameLimit
      invariant cap.Valid()
      invariant 0 <= frameCount <= n && cap.pos == p0 + frameCount
      invariant frameCount > 0 ==> !empty
      invariant prevGray == PreviousCrop(cap.frames, p0, area, frameCount)
      invariant changes == WindowSamples(cap.frames, p0, area, delta, frameCount)
      decreases |cap.frames| - cap.pos
    {
      var step := SampleNext(cap, area, delta, p0, frameCount, prevGray, changes);
      if step.None? {
        SampleWindowAll(cap.isOpen, |cap.frames|, p0, frameLimit, frameCount);
        break;
      }
      SampleWindowMore(cap.isOpen, |cap.frames|, p0, frameLimit, frameCount);
      if step.value.Failure? {
        return Failure(step.value.error);
      }
      prevGray, changes := step.value.value.0, step.value.value.1;
      frameCount := frameCount + 1;
    }
    SampleWindowAll(cap.isOpen, |cap.frames|, p0, frameLimit, frameCount);
    r := Success(changes);
  }

  /** `auto_detect_threshold`: samples `int(sampleSeconds * fps)` frames and
      decides the threshold from the kept samples. */
  method AutoDetectThreshold(cap: VideoCapture, fps: real, area: Roi, sampleSeconds: real, delta: int, k: real)
    returns (r: Result<Threshold, CropError>)
    requires cap.Valid()
    modifies cap`pos
    ensures cap.Valid()
    ensures var n := SampleWindow(cap.isOpen, |cap.frames|, old(cap.pos), FramesIn(sampleSeconds, fps));
      r == CalibrationOutcome(cap.frames, old(cap.pos), n, cap.width, cap.height, area, delta, k) &&
      cap.pos == if r.Failure? then old(cap.pos) + 1 else old(cap.pos) + n
  {
    var frameLimit := FramesIn(sampleSeconds, fps);
    ghost var p0 := cap.pos;
    var samples := ReadSamples(cap, area, frameLimit, delta);
    ghost var n := SampleWindow(cap.isOpen, |cap.frames|, p0, frameLimit);
    OutcomeOfWindow(cap.frames, p0, n, cap.width, cap.height, area, delta, k);
    match samples {
      case Failure(e) =>
        assert e == EmptyCrop;
        r := Failure(e);
      case Success(changes) =>
        assert changes == WindowSamples(cap.frames, p0, area, delta, n);
        r := Success(Decide(changes, k));
    }
    assert r == CalibrationOutcome(cap.frames, p0, n, cap.width, cap.height, area, delta, k);
  }

  /** `auto_detect_threshold` of the command-line tool: pixels differing by
      more than 5, spread multiplier 2. */
  method CliAutoDetectThreshold(cap: VideoCapture, fps: real, area: Roi, sampleSeconds: real)
    returns (r: Result<Threshold, CropError>)
    requires cap.Valid()
    modifies cap`pos
    ensures cap.Valid()
    ensures var n := SampleWindow(cap.isOpen, |cap.frames|, old(cap.pos), FramesIn(sampleSeconds, fps));
      r == CalibrationOutcome(cap.frames, old(cap.pos), n, cap.width, cap.height, area, PixelDelta, CliMultiplier) &&
      cap.pos == if r.Failure? then old(cap.pos) + 1 else old(cap.pos) + n
  {
    r := AutoDetectThreshold(cap, fps, area, sampleSeconds, PixelDelta, CliMultiplier);
  }

  /** `auto_detect_threshold` of the web service: pixels differing by more
      than 5, spread multiplier 1.5. */
  method ServiceAutoDetectThreshold(cap: VideoCapture, fps: real, area: Roi, sampleSeconds: real)
    returns (r: Result<Threshold, CropError>)
    requires cap.Valid()
    modifies cap`pos
    ensures cap.Valid()
    ensures var n := SampleWindow(cap.isOpen, |cap.frames|, old(cap.pos), FramesIn(sampleSeconds, fps));
      r == CalibrationOutcome(cap.frames, old(cap.pos), n, cap.width, cap.height, area, PixelDelta, ServiceMultiplier) &&
      cap.pos == if r.Failure? then old(cap.pos) + 1 else old(cap.pos) + n
  {
    r := AutoDetectThreshold(cap, fps, area, sampleSeconds, PixelDelta, ServiceMultiplier);
  }

  /** The two entry points differ only in the spread multiplier: on the
      same frames both fall back together, and otherwise estimate from the
      same mean and variance. */
  lemma EntryPointsDifferOnlyInMultiplier(frames: seq<Grid>, start: nat, count: nat, width: nat, height: nat, area: Roi)
    requires start + count <= |frames|
    ensures var cli := CalibrationOutcome(frames, start, count, width, height, area, PixelDelta, CliMultiplier);
      var service := CalibrationOutcome(frames, start, count, width, height, area, PixelDelta, ServiceMultiplier);
      cli.Failure? == service.Failure? &&
      (cli.Success? ==>
         (cli.value.Fixed? <==> service.value.Fixed?) &&
         (cli.value.Fixed? ==> cli.value == service.value) &&
         (cli.value.Estimated? ==>
            cli.value.k == 2.0 && service.value.k == 1.5 &&
            cli.value.mean == service.value.mean && cli.value.variance == service.value.variance))
  {
  }
}
