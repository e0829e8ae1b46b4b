/** The tab area: padding and clamping it to a frame (`safe_crop`), the plain
    crop calibration uses, and rescaling an area picked on a preview of another
    size (`select_tab_area`). */
module Region {
  import opened Basics
  import opened Grids

  /** A rectangle `(x, y, w, h)` in pixel coordinates. */
  datatype Roi = Roi(x: int, y: int, width: int, height: int)

  /** The slice bounds `frame[y1:y2, x1:x2]` that `safe_crop` uses. */
  datatype Bounds = Bounds(x1: int, y1: int, x2: int, y2: int)

  /** The padding `safe_crop` applies by default. */
  const DefaultPad: int := 5

  /** Pads the region by `pad` on every side, then clamps the left and top edges
      at 0 and the right and bottom edges at the frame's width and height. */
  function PaddedBounds(roi: Roi, frameWidth: nat, frameHeight: nat, pad: int): (b: Bounds)
    ensures 0 <= b.x1 && 0 <= b.y1 && b.x2 <= frameWidth && b.y2 <= frameHeight
    ensures roi.x - pad <= b.x1 && roi.y - pad <= b.y1
    ensures b.x2 <= roi.x + roi.width + pad && b.y2 <= roi.y + roi.height + pad
    ensures b.x1 == roi.x - pad || b.x1 == 0
    ensures b.y1 == roi.y - pad || b.y1 == 0
    ensures b.x2 == roi.x + roi.width + pad || b.x2 == frameWidth
    ensures b.y2 == roi.y + roi.height + pad || b.y2 == frameHeight
    ensures b.x2 - b.x1 <= roi.width + 2 * pad && b.y2 - b.y1 <= roi.height + 2 * pad
  {
    Bounds(
      if roi.x - pad > 0 then roi.x - pad else 0,
      if roi.y - pad > 0 then roi.y - pad else 0,
      if roi.x + roi.width + pad < frameWidth then roi.x + roi.width + pad else frameWidth,
      if roi.y + roi.height + pad < frameHeight then roi.y + roi.height + pad else frameHeight)
  }

  /** `safe_crop(frame, roi, pad)`: the padded, clamped crop; `h, w` come from the
      frame's own shape. */
  function SafeCrop(frame: Grid, roi: Roi, pad: int): Grid
  {
    var b := PaddedBounds(roi, Cols(frame), |frame|, pad);
    Crop(frame, b.y1, b.y2, b.x1, b.x2)
  }

  /** The crop calibration takes, `frame[y:y+h, x:x+w]`, with no padding. */
  function AreaCrop(frame: Grid, roi: Roi): Grid
  {
    Crop(frame, roi.y, roi.y + roi.height, roi.x, roi.x + roi.width)
  }

  /** On a frame of fixed dimensions, the height and width of the safe crop
      depend only on the region; when the padded region does not end left of
      or above the frame, the crop is exactly `[y1, y2) x [x1, x2)`. */
  lemma SafeCropShape(frame: Grid, rows: nat, cols: nat, roi: Roi, pad: int)
    requires Shaped(frame, rows, cols)
    ensures var b := PaddedBounds(roi, cols, rows, pad);
      Shaped(SafeCrop(frame, roi, pad), SliceLen(b.y1, b.y2, rows), SliceLen(b.x1, b.x2, cols))
    ensures var b := PaddedBounds(roi, cols, rows, pad);
      b.x2 >= 0 && b.y2 >= 0 ==>
        |SafeCrop(frame, roi, pad)| == (if b.y1 < b.y2 then b.y2 - b.y1 else 0) &&
        forall i, j | 0 <= i < |SafeCrop(frame, roi, pad)| && 0 <= j < b.x2 - b.x1 ::
          SafeCrop(frame, roi, pad)[i][j] == frame[b.y1 + i][b.x1 + j]
  {
    if rows > 0 {
      assert Cols(frame) == cols;
    }
    var b := PaddedBounds(roi, cols, rows, pad);
    CropShape(frame, rows, cols, b.y1, b.y2, b.x1, b.x2);
  }

  /** A region lying inside the frame is contained in its safe crop: every pixel
      of the region appears in the crop, shifted by the crop's corner. */
  lemma RegionInsideCrop(frame: Grid, rows: nat, cols: nat, roi: Roi, pad: int)
    requires Shaped(frame, rows, cols)
    requires pad >= 0 && 0 <= roi.x && 0 <= roi.y && 0 <= roi.width && 0 <= roi.height
    requires roi.x + roi.width <= cols && roi.y + roi.height <= rows
    ensures var b := PaddedBounds(roi, cols, rows, pad);
      b.x1 <= roi.x && roi.x + roi.width <= b.x2 && b.y1 <= roi.y && roi.y + roi.height <= b.y2
    ensures var b := PaddedBounds(roi, cols, rows, pad);
      forall r, c | roi.y <= r < roi.y + roi.height && roi.x <= c < roi.x + roi.width ::
        SafeCrop(frame, roi, pad)[r - b.y1][c - b.x1] == frame[r][c]
  {
    PaddedBoundsContain(roi, cols, rows, pad);
    forall r, c | roi.y <= r < roi.y + roi.height && roi.x <= c < roi.x + roi.width
      ensures var b := PaddedBounds(roi, cols, rows, pad);
        SafeCrop(frame, roi, pad)[r - b.y1][c - b.x1] == frame[r][c]
    {
      RegionPixel(frame, rows, cols, roi, pad, r, c);
    }
  }

  /** One pixel of the region, found at its offset inside the safe crop. */
  lemma RegionPixel(frame: Grid, rows: nat, cols: nat, roi: Roi, pad: int, r: int, c: int)
    requires Shaped(frame, rows, cols)
    requires pad >= 0 && 0 <= roi.x && 0 <= roi.y
    requires roi.x + roi.width <= cols && roi.y + roi.height <= rows
    requires roi.y <= r < roi.y + roi.height && roi.x <= c < roi.x + roi.width
    ensures var b := PaddedBounds(roi, cols, rows, pad);
      0 <= r - b.y1 < |SafeCrop(frame, roi, pad)| &&
      0 <= c - b.x1 < |SafeCrop(frame, roi, pad)[r - b.y1]| &&
      SafeCrop(frame, roi, pad)[r - b.y1][c - b.x1] == frame[r][c]
  {
    var b := PaddedBounds(roi, cols, rows, pad);
    PaddedBoundsContain(roi, cols, rows, pad);
    SafeCropShape(frame, rows, cols, roi, pad);
    var i, j := r - b.y1, c - b.x1;
    assert b.y1 + i == r && b.x1 + j == c;
  }

  /** Padding only widens a region that lies inside the frame. */
  lemma PaddedBoundsContain(roi: Roi, cols: nat, rows: nat, pad: int)
    requires pad >= 0 && 0 <= roi.x && 0 <= roi.y
    requires roi.x + roi.width <= cols && roi.y + roi.height <= rows
    ensures var b := PaddedBounds(roi, cols, rows, pad);
      0 <= b.x1 <= roi.x && roi.x + roi.width <= b.x2 <= cols &&
      0 <= b.y1 <= roi.y && roi.y + roi.height <= b.y2 <= rows
  {
  }



  /** As written, a padded region that ends left of the frame (`x + w + pad < 0`)
      does not give an empty crop: numpy reads the negative right edge as
      counted from the frame's right side. */
  lemma SafeCropNegativeEdgeWraps(frame: Grid, rows: nat, cols: nat, roi: Roi, pad: int)
    requires Shaped(frame, rows, cols)
    requires 0 <= pad && 0 <= roi.width && 0 < roi.height
    requires roi.x + roi.width + pad < 0 && 0 < cols + roi.x + roi.width + pad
    requires 0 <= roi.y - pad && roi.y + roi.height + pad <= rows
    ensures |SafeCrop(frame, roi, pad)| == roi.height + 2 * pad
    ensures forall i | 0 <= i < |SafeCrop(frame, roi, pad)| ::
      |SafeCrop(frame, roi, pad)[i]| == cols + roi.x + roi.width + pad
  {
    SafeCropShape(frame, rows, cols, roi, pad);
    var b := PaddedBounds(roi, cols, rows, pad);
    assert b == Bounds(0, roi.y - pad, roi.x + roi.width + pad, roi.y + roi.height + pad);
    assert SliceLen(b.x1, b.x2, cols) == cols + roi.x + roi.width + pad;
    assert SliceLen(b.y1, b.y2, rows) == roi.height + 2 * pad;
  }

  /** The worked example of a region away from the edges: `(10, 10, 100, 50)`
      padded by 5 on a 200 x 200 frame spans rows 5-65 and columns 5-115. */
  lemma InteriorCropExample()
    ensures PaddedBounds(Roi(10, 10, 100, 50), 200, 200, 5) == Bounds(5, 5, 115, 65)
  {
  }

  /** The worked example at a corner: `(0, 0, 20, 20)` padded by 5 on a 50 x 50
      frame is clamped to rows 0-25 and columns 0-25. */
  lemma CornerCropExample()
    ensures PaddedBounds(Roi(0, 0, 20, 20), 50, 50, 5) == Bounds(0, 0, 25, 25)
  {
  }

  /** `cv2.cvtColor` refuses an empty crop, in calibration and in capture. */
  datatype CropError = EmptyCrop

  /** Where `select_tab_area` takes its region from. */
  datatype TabArea = Given(roi: Roi) | Interactive

  datatype SelectError = ZeroDivision | MissingRoi

  /** One coordinate times the factor `frameDim / previewDim`, truncated with
      `int()`. */
  function ScaleCoord(v: int, frameDim: int, previewDim: int): int
    requires previewDim != 0
  {
    Trunc(v as real * (frameDim as real / previewDim as real))
  }

  /** Each coordinate multiplied by its axis factor (frame size over preview
      size) and truncated. */
  function ScaleRoi(roi: Roi, frameWidth: int, frameHeight: int, previewWidth: int, previewHeight: int): Roi
    requires previewWidth != 0 && previewHeight != 0
  {
    Roi(ScaleCoord(roi.x, frameWidth, previewWidth), ScaleCoord(roi.y, frameHeight, previewHeight),
        ScaleCoord(roi.width, frameWidth, previewWidth), ScaleCoord(roi.height, frameHeight, previewHeight))
  }

  /** `select_tab_area`: with a preview size and both frame dimensions present the
      region is rescaled (a zero preview dimension raises ZeroDivisionError,
      a missing region AttributeError); otherwise a given region passes through
      unchanged, and without one the interactive picker is used. */
  function SelectTabArea(roi: Option<Roi>, frameWidth: Option<int>, frameHeight: Option<int>,
                         previewSize: Option<(int, int)>): (r: Result<TabArea, SelectError>)
    ensures previewSize.None? || frameWidth.None? || frameHeight.None? ==>
      r == Success(if roi.Some? then Given(roi.value) else Interactive)
    ensures r.Failure? <==> (previewSize.Some? && frameWidth.Some? && frameHeight.Some? &&
                             (previewSize.value.0 == 0 || previewSize.value.1 == 0 || roi.None?))
    ensures previewSize.Some? && frameWidth.Some? && frameHeight.Some? ==>
      var (pw, ph) := previewSize.value;
      (pw == 0 || ph == 0 ==> r == Failure(ZeroDivision)) &&
      (pw != 0 && ph != 0 && roi.None? ==> r == Failure(MissingRoi)) &&
      (pw != 0 && ph != 0 && roi.Some? ==>
         r == Success(Given(ScaleRoi(roi.value, frameWidth.value, frameHeight.value, pw, ph))))
  {
    if previewSize.Some? && frameWidth.Some? && frameHeight.Some? then
      var (pw, ph) := previewSize.value;
      if pw == 0 || ph == 0 then Failure(ZeroDivision)
      else if roi.None? then Failure(MissingRoi)
      else Success(Given(ScaleRoi(roi.value, frameWidth.value, frameHeight.value, pw, ph)))
    else if roi.Some? then Success(Given(roi.value))
    else Success(Interactive)
  }

  lemma ScaleCoordUnit(v: int, d: int)
    requires d != 0
    ensures ScaleCoord(v, d, d) == v
  {
    DivSelf(d as real);
    assert v as real * (d as real / d as real) == v as real;
    assert Trunc(v as real) == v;
  }

  /** A preview of the frame's own size leaves the region unchanged. */
  lemma ScaleSameSizeIsIdentity(roi: Roi, frameWidth: int, frameHeight: int)
    requires frameWidth != 0 && frameHeight != 0
    ensures ScaleRoi(roi, frameWidth, frameHeight, frameWidth, frameHeight) == roi
  {
    ScaleCoordUnit(roi.x, frameWidth);
    ScaleCoordUnit(roi.y, frameHeight);
    ScaleCoordUnit(roi.width, frameWidth);
    ScaleCoordUnit(roi.height, frameHeight);
  }

  /** Truncated scaling keeps a region that lies inside the preview inside the
      frame, per axis. */
  lemma ScaleAxisInside(pos: int, len: int, frameDim: int, previewDim: int)
    requires previewDim > 0 && frameDim >= 0 && 0 <= pos && 0 <= len && pos + len <= previewDim
    ensures 0 <= ScaleCoord(pos, frameDim, previewDim) && 0 <= ScaleCoord(len, frameDim, previewDim)
    ensures ScaleCoord(pos, frameDim, previewDim) + ScaleCoord(len, frameDim, previewDim) <= frameDim
  {
    var s := frameDim as real / previewDim as real;
    ScaledParts(pos as real, len as real, frameDim as real, previewDim as real);
    TruncSumWithin(pos as real * s, len as real * s, frameDim);
  }

  /** The scaled start and length of an axis are non-negative and their sum
      stays within the frame. */
  lemma ScaledParts(pos: real, len: real, frameDim: real, previewDim: real)
    requires previewDim > 0.0 && frameDim >= 0.0 && 0.0 <= pos && 0.0 <= len && pos + len <= previewDim
    ensures var s := frameDim / previewDim;
      0.0 <= pos * s && 0.0 <= len * s && pos * s + len * s <= frameDim
  {
    var s := frameDim / previewDim;
    MulNonneg(pos, s);
    MulNonneg(len, s);
    assert pos * s + len * s == (pos + len) * s;
    MulMonotone(pos + len, previewDim, s);
    MulDivCancel(frameDim, previewDim);
  }

  /** Two non-negative reals whose sum is at most `n` truncate to integers
      whose sum is at most `n`. */
  lemma TruncSumWithin(p: real, l: real, n: int)
    requires 0.0 <= p && 0.0 <= l && p + l <= n as real
    ensures 0 <= Trunc(p) && 0 <= Trunc(l) && Trunc(p) + Trunc(l) <= n
  {
    TruncBounds(p);
    TruncBounds(l);
    TruncSuperadditive(p, l);
    TruncMonotone(p + l, n as real);
    assert Trunc(n as real) == n;
  }

  /** A region inside the preview, rescaled, is a region inside the frame. */
  lemma ScaleKeepsRegionInside(roi: Roi, frameWidth: int, frameHeight: int, previewWidth: int, previewHeight: int)
    requires previewWidth > 0 && previewHeight > 0 && frameWidth >= 0 && frameHeight >= 0
    requires 0 <= roi.x && 0 <= roi.width && roi.x + roi.width <= previewWidth
    requires 0 <= roi.y && 0 <= roi.height && roi.y + roi.height <= previewHeight
    ensures var s := ScaleRoi(roi, frameWidth, frameHeight, previewWidth, previewHeight);
      0 <= s.x && 0 <= s.width && s.x + s.width <= frameWidth &&
      0 <= s.y && 0 <= s.height && s.y + s.height <= frameHeight
  {
    ScaleAxisInside(roi.x, roi.width, frameWidth, previewWidth);
    ScaleAxisInside(roi.y, roi.height, frameHeight, previewHeight);
  }

  /** A region picked inside the preview is selected as a region inside the
      frame. */
  lemma SelectedAreaInsideFrame(roi: Roi, frameWidth: int, frameHeight: int, previewWidth: int, previewHeight: int)
    requires previewWidth > 0 && previewHeight > 0 && frameWidth >= 0 && frameHeight >= 0
    requires 0 <= roi.x && 0 <= roi.width && roi.x + roi.width <= previewWidth
    requires 0 <= roi.y && 0 <= roi.height && roi.y + roi.height <= previewHeight
    ensures var r := SelectTabArea(Some(roi), Some(frameWidth), Some(frameHeight), Some((previewWidth, previewHeight)));
      r.Success? && r.value.Given? &&
      0 <= r.value.roi.x && 0 <= r.value.roi.width && r.value.roi.x + r.value.roi.width <= frameWidth &&
      0 <= r.value.roi.y && 0 <= r.value.roi.height && r.value.roi.y + r.value.roi.height <= frameHeight
  {
    ScaleKeepsRegionInside(roi, frameWidth, frameHeight, previewWidth, previewHeight);
  }

  /** A preview of the frame's own size selects the region as given. */
  lemma SelectSameSizeKeepsRegion(roi: Roi, frameWidth: int, frameHeight: int)
    requires frameWidth != 0 && frameHeight != 0
    ensures SelectTabArea(Some(roi), Some(frameWidth), Some(frameHeight), Some((frameWidth, frameHeight))) ==
      Success(Given(roi))
  {
    ScaleSameSizeIsIdentity(roi, frameWidth, frameHeight);
  }
}
