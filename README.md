# janky-guitar-tabs, modelled in Dafny

janky-guitar-tabs picks the screenshots of a guitar tab out of a video, frame
by frame, and lays them out on printable PDF pages. This project models the
deterministic part of that pipeline and proves what it promises:

- **Region arithmetic** (`region.dfy`, `grids.dfy`, `basics.dfy`).
  `safe_crop` pads a region of interest by 5 pixels and clamps it to the frame.
  The crop follows numpy's slice rules. `select_tab_area` rescales a region
  from preview coordinates to frame coordinates, truncating with `int()`.
- **Video cursor** (`video.dfy`). A `VideoCapture` class holds the decoded
  grayscale frames and a read position. `read`, `grab` and `set` move the
  position. The module also covers `skip_edges`, `skip_time`, `load_video` and
  `reset_cap_position`.
- **Change detection** (`change.dfy`). A pixel has changed when its absolute
  grayscale difference is strictly above 5. The change percentage is
  `100 * changed / size`, computed exactly over `real`.
- **Calibration** (`calibration.dfy`). `auto_detect_threshold` compares each
  frame with the one before it and keeps only samples above 1 per cent. It
  falls back to 10 with fewer than 5 samples; otherwise the mean and the spread
  decide. The spread multiplier is 2 in the command-line tool and 1.5 in the
  web service. The result is a `Threshold`: `Fixed(10)` or the estimate.
- **Capture** (`capture.dfy`). `capture_tab_frames` saves the first frame.
  After that it saves a frame when it differs from the *last saved* frame by
  strictly more than the threshold. It stops on a failed read or at the end
  boundary. Paths are named after the count of processed frames.
- **Print layout** (`layout.dfy`). `create_print_ready_pdf` binarises every
  image at 180 and shrinks it to the printable width, never enlarging it. It
  centres each image and stacks the images down US-letter pages under an
  optional title, starting a new page when an image does not fit above the
  bottom margin. Missing files are skipped. The module also covers the guard
  of `save_as_pdf`.

`makeTabs.py` and `app/util/video_tools.py` hold near-identical copies of the
crop, calibration and capture code, and one model covers both. The
calibration's spread multiplier is a parameter `k`, with the two constants
`CliMultiplier` (2) and `ServiceMultiplier` (1.5). The ROI scaling and
`reset_cap_position` exist only in `app/util/video_tools.py`.
`create_print_ready_pdf` and `save_as_pdf` are identical in `makeTabs.py` and
`util/pdf_tools.py`.

The loops of the source are methods with loop invariants. Each is proved
against a specification function, and the properties are proved as lemmas
about that function:

| loop | specification | lemmas about it |
|---|---|---|
| `Calibration.ReadSamples`, with its body in `SampleNext` and `SampleFrame` | `WindowSamples`, `PreviousCrop` | `AccumulatedIsKeepAbove`, `WindowSamplesAreSamples`, `SamplesStep` |
| `Capture.CaptureLoop` | `Run`, an instance of the generic scan `Scan` | `SavedIff`, `BaselineIsLastSaved`, `ScanIncreasing`, … |
| `Layout.CreatePrintReadyPdf` | `FlowAfter` | `FlowStacked`, `MissingFilesSkipped`, `PlacedInOrder` |

The body of the calibration loop is split into `SampleNext` (the read) and
`SampleFrame` (crop, compare, keep). `ReadSamples` holds the loop: while the
capture is open and fewer than `frame_limit` frames were read, it calls
`SampleNext`, stops at the first failed read, and fails at the first empty
crop.
The reference for `WindowSamples` is `Samples`, defined as the kept consecutive
changes `KeepAbove(ConsecutiveChanges(...))`.

## Model

| member | source | states |
|---|---|---|
| Basics.Trunc | makeTabs.py:114 | `int()` on a real; its properties are in `TruncBounds`, `TruncMonotone` and `TruncSuperadditive` |
| Basics.TruncBounds | makeTabs.py:114 | `int()` of a real truncates toward zero: the result lies within one of the real, on the same side of zero |
| Basics.TruncMonotone | app/util/video_tools.py:90-93 | truncation is monotone |
| Basics.TruncSuperadditive | app/util/video_tools.py:90-93 | for non-negative reals the truncated parts of a sum add up to at most the truncated sum |
| Grids.SliceIndex | makeTabs.py:52 | a slice bound normalises like numpy's: it is clamped to [0, n], and a negative bound counts from the end |
| Grids.Slice | makeTabs.py:52 | a slice has the normalised length and holds the elements from the normalised start on |
| Grids.Crop | makeTabs.py:52 | `frame[y1:y2, x1:x2]` keeps the normalised row range, and each row is sliced by the column bounds |
| Grids.CropShape | makeTabs.py:52 | a crop of a rectangular frame is rectangular; its shape depends only on the bounds and the frame's shape, and its pixels are the frame's pixels shifted by the normalised corner |
| Grids.CropAll | app/util/video_tools.py:37 | cropping every frame of a sequence gives the crop of each frame, in order |
| Grids.CropAllShaped | app/util/video_tools.py:37 | frames of one shape give crops of one shape |
| Grids.SizeOfShaped | makeTabs.py:208 | a grid has no pixel exactly when it has no row or no column |
| ChangeDetection.PixelChanged | makeTabs.py:206-207 | a pixel changed when its absolute difference is strictly above the delta; what the counts make of it is in `CountRowZeroIff` and `CountRowFullIff` |
| ChangeDetection.CountRow | makeTabs.py:206-208 | at most one changed pixel is counted per column compared |
| ChangeDetection.CountRowZeroIff | makeTabs.py:206-208 | a row counts zero iff no pixel in it differs by more than the delta |
| ChangeDetection.CountRowFullIff | makeTabs.py:206-208 | a row counts all of its pixels iff every pixel differs by more than the delta |
| ChangeDetection.CountRows | makeTabs.py:208 | `countNonZero` over the first rows; properties in `CountRowsAtMost`, `CountRowsZeroIff`, `CountRowsFullIff` and `CountRowsSymmetric` |
| ChangeDetection.CountChanged | makeTabs.py:208 | `countNonZero` of the thresholded difference; properties in `CountRowsAtMost`, `CountRowsZeroIff` and `CountRowsFullIff` |
| ChangeDetection.CountRowsAtMost | makeTabs.py:206-208 | the changed count is at most the number of pixels compared |
| ChangeDetection.CountRowsZeroIff | makeTabs.py:206-208 | the grid count is zero iff no pixel changed |
| ChangeDetection.CountRowsFullIff | makeTabs.py:206-208 | the grid count equals the pixel count iff every pixel changed |
| ChangeDetection.PercentBounds | makeTabs.py:208 | the percentage lies in [0, 100]; it is 0 only for no changed pixel and 100 only for all of them |
| ChangeDetection.RowsOfWidthIff | makeTabs.py:206 | the recursive width check holds iff every row of both grids has the given width |
| ChangeDetection.ComparableIff | makeTabs.py:206 | two grids can be compared iff they have the same shape and at least one pixel |
| ChangeDetection.ChangePercent | makeTabs.py:206-208 | the change percentage always lies in [0, 100] |
| ChangeDetection.NoChangeIff | makeTabs.py:206-208 | the percentage is 0 iff no pixel differs by more than the delta |
| ChangeDetection.FullChangeIff | makeTabs.py:206-208 | the percentage is 100 iff every pixel differs by more than the delta |
| ChangeDetection.IdenticalNoChange | makeTabs.py:206-208 | a grid compared with itself shows no change |
| ChangeDetection.CountRowSymmetric | makeTabs.py:206 | the row count does not depend on the order of the two rows (`absdiff` is symmetric) |
| ChangeDetection.CountRowsSymmetric | makeTabs.py:206 | the grid count does not depend on the order of the two grids |
| ChangeDetection.ChangePercentSymmetric | makeTabs.py:206-208 | comparability and the percentage do not depend on the order of the two grids |
| Region.PaddedBounds | makeTabs.py:41-52 | the padded bounds lie in `[0, w] x [0, h]`, each is either the padded edge or the frame's edge, and the span is at most the size plus twice the pad |
| Region.SafeCrop | makeTabs.py:41-52 | the padded, clamped crop; properties in `SafeCropShape`, `RegionInsideCrop`, `RegionPixel` and `SafeCropNegativeEdgeWraps` |
| Region.AreaCrop | makeTabs.py:121 | the unpadded crop calibration takes; properties in `Calibration.AreaCropSize` and `Calibration.AreaCropsComparable` |
| Region.SafeCropShape | app/util/video_tools.py:5-16 | the crop's shape follows from the bounds; when the right and bottom bounds are not negative, the crop is exactly the pixels of `[y1, y2) x [x1, x2)` |
| Region.RegionInsideCrop | makeTabs.py:41-52 | a region inside the frame lies inside the padded bounds, and each of its pixels appears in the crop, shifted by the crop's corner |
| Region.RegionPixel | makeTabs.py:41-52 | one pixel of a region inside the frame lies inside the safe crop, at its offset from the crop's top-left corner |
| Region.SafeCropNegativeEdgeWraps | app/util/video_tools.py:13-16 | a region whose padded right edge is negative does not give an empty crop: numpy counts that edge from the frame's right side |
| Region.InteriorCropExample | makeTabs.py:47-50 | a region of 100 x 50 at (10, 10) on a 200 x 200 frame crops columns 5-115 and rows 5-65 |
| Region.CornerCropExample | makeTabs.py:47-50 | a region at the frame's corner is clamped to 0 on the left and top |
| Region.ScaleCoord | app/util/video_tools.py:90-93 | one coordinate times frame size over preview size, truncated; properties in `ScaleCoordUnit` and `ScaleAxisInside` |
| Region.ScaleRoi | app/util/video_tools.py:87-93 | the region rescaled axis by axis; properties in `ScaleSameSizeIsIdentity` and `ScaleKeepsRegionInside` |
| Region.SelectTabArea | app/util/video_tools.py:83-104 | without a preview size or a frame size the region passes through, or the interactive picker is used; with all three sizes a preview dimension of 0 fails with a division by zero (before the region is looked at), a missing region fails, and otherwise the result is the region rescaled by `ScaleRoi` |
| Region.ScaleCoordUnit | app/util/video_tools.py:87-93 | scaling by a preview as large as the frame keeps a coordinate |
| Region.ScaleSameSizeIsIdentity | app/util/video_tools.py:87-93 | a preview of the frame's own size leaves the region unchanged |
| Region.ScaleAxisInside | app/util/video_tools.py:87-93 | on one axis, the scaled and truncated position and length stay within the frame |
| Region.ScaleKeepsRegionInside | app/util/video_tools.py:87-93 | a region inside the preview is rescaled to a region inside the frame |
| Region.SelectedAreaInsideFrame | app/util/video_tools.py:85-98 | a region picked inside a preview of positive size is selected, rescaled to a region inside the frame |
| Region.SelectSameSizeKeepsRegion | app/util/video_tools.py:85-98 | with a preview of the frame's own size the region is selected unchanged |
| Video.FramesIn | makeTabs.py:114 | `int(seconds * fps)`; properties in `FramesInBounds` |
| Video.EndFrame | makeTabs.py:185-186 | the frame count less the whole frames of the end offset; properties in `EndFrameBounds` |
| Video.FramesInBounds | makeTabs.py:114 | `int(seconds * fps)` is the whole number of frames in the interval, and never positive for a negative interval |
| Video.EndFrameBounds | makeTabs.py:185-186 | for a non-negative end offset, the end boundary is at most the frame count, short of it by the whole frames of the end offset |
| Video.SeekTarget | makeTabs.py:159 | a seek lands within the stream, exactly on the target when the target exists |
| Video.VideoCapture.constructor | makeTabs.py:150 | a new capture holds its frames, with the read position at 0 |
| Video.VideoCapture.TotalFrames | makeTabs.py:185 | `CAP_PROP_FRAME_COUNT`, the number of frames of the stream; the capture's invariant `Valid` keeps the read position at most this count, and `Read`, `Grab` and `SetPosition` preserve it |
| Video.VideoCapture.Read | makeTabs.py:189-192 | a read succeeds iff the capture is open and a frame is left; it returns that frame and advances the position by one, and a failed read leaves the position unchanged |
| Video.VideoCapture.Grab | makeTabs.py:143-146 | a grab advances the position by one iff the capture is open and a frame is left |
| Video.VideoCapture.SetPosition | makeTabs.py:159 | on an open capture, seeking sets the position to the clamped target |
| Video.SkipEdges | makeTabs.py:236-241 | the start is `int(start_offset * fps)`: the whole frames of a non-negative offset, and for a negative offset the product truncated toward zero; the end is the frame count less `int(end_offset * fps)`, never past the frame count |
| Video.SkipTime | makeTabs.py:143-146 | the counter is advanced by `frames_to_skip` whatever the grabs do; the position advances by the number of frames that could be grabbed |
| Video.LoadVideo | makeTabs.py:148-163 | a closed capture fails; a start frame at or past the frame count fails; otherwise the frame at the start is read, and a failed read fails |
| Video.ResetCapPosition | app/util/video_tools.py:117-119 | the position becomes `int(fps * start_time)`, clamped, on an open capture |
| Calibration.ConsecutiveChanges | makeTabs.py:123-130 | one change per pair of consecutive frames, each the change between a frame and the one before it |
| Calibration.KeepAbove | makeTabs.py:127-128 | the kept samples are no more than the changes, and each is strictly above the floor |
| Calibration.KeepAboveMembers | makeTabs.py:127-128 | a value is kept iff it is a change above the floor |
| Calibration.KeepAboveNone | makeTabs.py:127-128 | nothing is kept when no change is above the floor |
| Calibration.KeepAboveAppend | makeTabs.py:127-128 | filtering distributes over concatenation, so the order of samples is kept |
| Calibration.Samples | makeTabs.py:123-131 | the consecutive changes above 1 per cent; properties in `SamplesSnoc`, `SamplesAppend`, `SamplesAreSignificantChanges`, `StaticAreaHasNoSamples` and `ShortWindowHasNoSamples` |
| Calibration.SamplesSnoc | makeTabs.py:123-131 | one more frame adds the change against the frame before it, when it is above the floor, and nothing else |
| Calibration.SamplesAppend | makeTabs.py:123-131 | a frame appended to a window adds at most its change against the window's last frame, and adds nothing to an empty window |
| Calibration.SamplesAreSignificantChanges | makeTabs.py:123-131 | there are at most as many samples as consecutive pairs; each lies in (1, 100] and is the change of some consecutive pair |
| Calibration.StaticAreaHasNoSamples | makeTabs.py:121-131 | a region that never changes yields no sample |
| Calibration.SumSquares | makeTabs.py:137 | a sum of squared deviations is non-negative |
| Calibration.Decide | makeTabs.py:133-138 | the threshold is `Fixed(10)` iff fewer than 5 samples were kept; otherwise the estimate uses their mean and population variance with the given multiplier |
| Calibration.Sum | makeTabs.py:136 | the sum of the samples; properties in `SumBounds` |
| Calibration.SumBounds | makeTabs.py:136 | the sum of values in `(lo, hi]` lies between `n * lo` and `n * hi` |
| Calibration.Mean | makeTabs.py:136 | `np.mean`; properties in `MeanBounds` |
| Calibration.MeanBounds | makeTabs.py:136 | the mean of kept samples lies in (1, 100] |
| Calibration.Variance | makeTabs.py:137 | `np.std(xs) ** 2`, the population variance; properties in `VarianceNonnegative` |
| Calibration.VarianceNonnegative | makeTabs.py:137 | the variance is non-negative |
| Calibration.EstimateBounds | makeTabs.py:133-138 | an estimated threshold has its mean in (1, 100] and a non-negative variance |
| Calibration.StaticAreaFallsBack | makeTabs.py:133-135 | a region that never changes falls back to `Fixed(10)` |
| Calibration.SampleWindow | makeTabs.py:114-119 | the loop reads at most `int(sample_seconds * fps)` frames, no frame past the end, and exactly that many when they exist on an open capture |
| Calibration.AreaCropSize | makeTabs.py:121 | the unpadded crop is empty iff the region's clamped span is empty on some axis |
| Calibration.AreaCrops | makeTabs.py:121 | every frame read is cropped to the region, in order |
| Calibration.ShortWindowHasNoSamples | makeTabs.py:123 | with fewer than two frames there is no pair to compare |
| Calibration.CalibrationOutcome | makeTabs.py:109-141 | calibration fails iff a frame is read and the region's crop is empty; with at most 5 frames read it returns `Fixed(10)` |
| Calibration.AreaCropsComparable | makeTabs.py:121-126 | two frames of the stream give comparable crops when the region's crop is not empty |
| Calibration.Pairwise | app/util/video_tools.py:39-46 | one change per consecutive pair of items |
| Calibration.Accumulated | app/util/video_tools.py:39-47 | the samples accumulated one item at a time; properties in `AccumulatedIsKeepAbove` and `AccumulatedNext` |
| Calibration.AccumulatedIsKeepAbove | app/util/video_tools.py:39-47 | the samples the loop accumulates frame by frame are exactly the kept consecutive changes of the frames read |
| Calibration.KeepAboveStep | app/util/video_tools.py:39-47 | one more frame read adds, to the significant consecutive changes, the kept change of the new frame against the previous one |
| Calibration.PairwiseSnoc | app/util/video_tools.py:39-46 | one more item adds the change of the last pair |
| Calibration.KeepAboveSingle | app/util/video_tools.py:43-44 | a single change is kept iff it is above 1 per cent |
| Calibration.AccumulatedNext | app/util/video_tools.py:39-47 | the first frame only becomes the previous frame; each later frame adds its kept change against the frame just before it |
| Calibration.WindowSamples | makeTabs.py:116-131 | the samples the loop holds after `i` frames; properties in `WindowSamplesNext`, `WindowSamplesAfter` and `WindowSamplesAreSamples` |
| Calibration.PreviousCrop | makeTabs.py:123-130 | `prev_gray` after `i` frames: none before the first frame, then the crop of the frame read last; properties in `SamplesStep` |
| Calibration.FrameChange | makeTabs.py:121-126 | the change between two frames' crops; properties in `FrameChangeOf` |
| Calibration.WindowSamplesNext | app/util/video_tools.py:39-47 | the same step stated on the frames' crops of the region |
| Calibration.WindowSamplesAreSamples | app/util/video_tools.py:32-47 | the loop's samples are the kept consecutive changes of the crops of the frames read |
| Calibration.OutcomeOfWindow | app/util/video_tools.py:49-54 | the outcome is `Fixed(10)` or the estimate decided on the loop's samples, or the failure on an empty crop |
| Calibration.FrameChangeOf | makeTabs.py:121-126 | the change between two frames is the percentage between their crops of the region |
| Calibration.SamplesStep | app/util/video_tools.py:37-47 | after one more frame the previous crop is that frame's crop, and its change against the former previous crop is appended iff there was one and the change is above 1 per cent |
| Calibration.WindowSamplesAfter | app/util/video_tools.py:39-47 | after the first frame, each frame read appends the kept change of its crop against the previous crop |
| Calibration.SampleFrame | app/util/video_tools.py:37-47 | the body of the loop after a read fails iff the crop is empty, and otherwise leaves the previous crop and the samples of one more frame |
| Calibration.SampleNext | makeTabs.py:117-131 | one iteration reads a frame iff the capture is open and a frame is left, and then samples it; the position advances by the frame read |
| Calibration.ReadSamples | makeTabs.py:116-131 | the loop reads the frame window, fails iff a frame is read and the crop is empty, and otherwise returns the samples of the window; the position ends after the frames read |
| Calibration.AutoDetectThreshold | makeTabs.py:109-141 | the result is the calibration outcome over the frames read, with the position after them |
| Calibration.CliAutoDetectThreshold | makeTabs.py:109-141 | the command-line tool's calibration is the outcome with a pixel delta of 5 and a spread multiplier of 2 |
| Calibration.ServiceAutoDetectThreshold | app/util/video_tools.py:25-57 | the web service's calibration is the outcome with a pixel delta of 5 and a spread multiplier of 1.5 |
| Calibration.EntryPointsDifferOnlyInMultiplier | app/util/video_tools.py:54 | on the same frames the two entry points fail together and fall back together to the same `Fixed(10)`; their estimates share mean and variance and differ only in the multiplier, 2 against 1.5 |
| Capture.TabCrop | makeTabs.py:202 | `safe_crop` with the default padding of 5; properties in `TabCropSize` and `TabCropsComparable` |
| Capture.TabCropSize | makeTabs.py:202-203 | the padded crop is empty iff the padded, clamped span is empty on some axis |
| Capture.TabCropsComparable | makeTabs.py:205-208 | two frames of the stream give comparable crops when the crop is not empty |
| Capture.Digit | makeTabs.py:211 | a digit is written as a character from '0' to '9' |
| Capture.Decimal | makeTabs.py:211 | the decimal form of the counter is non-empty and made of digits |
| Capture.DecimalRoundTrip | makeTabs.py:211 | reading the decimal form back gives the counter |
| Capture.FramePath | makeTabs.py:211 | the screenshot path of a frame counter; properties in `FramePathInjective` |
| Capture.FramePathInjective | makeTabs.py:211 | two frame paths are equal iff their counters are |
| Capture.Paths | makeTabs.py:211-213 | one path per saved counter, in order |
| Capture.PathsSnoc | makeTabs.py:211-213 | saving one more frame appends its path |
| Capture.PathsDistinct | makeTabs.py:211-224 | increasing counters give distinct paths |
| Capture.Advance | makeTabs.py:205-222 | one processed item: saved and made the baseline when there is none or it exceeds the baseline; properties in `RunNext` and `SavedIff` |
| Capture.Scan | makeTabs.py:188-224 | the saved counters and baseline after `i` items; properties in `ScanStarts`, `ScanIncreasing`, `BaselineIsLastSaved`, `ScanPrefix` and `SavedIff` |
| Capture.ScanStarts | makeTabs.py:216-222 | after a frame has been processed there is a baseline, something is saved, and counter 0 is saved first |
| Capture.ScanIncreasing | makeTabs.py:211-224 | the saved counters are strictly increasing and less than the frames processed |
| Capture.BaselineIsLastSaved | makeTabs.py:205-222 | the baseline is the crop of the last saved frame |
| Capture.ScanPrefix | makeTabs.py:205-224 | processing more frames only appends to what was saved, and only counters of the later frames |
| Capture.SavedIff | makeTabs.py:205-222 | frame `j` is saved iff it is the first frame or it exceeds the baseline left by the frames before it |
| Capture.NeverExceededSavesFirstOnly | makeTabs.py:205-222 | when no frame exceeds the first, only the first is saved, and it stays the baseline |
| Capture.AlwaysExceededSavesAll | makeTabs.py:205-215 | when every comparison exceeds, every frame is saved |
| Capture.Exceeds | makeTabs.py:208-210 | the change against the baseline is strictly above the threshold; properties in `FullThresholdSavesFirstOnly` and `NegativeThresholdSavesAll` |
| Capture.Run | makeTabs.py:188-224 | the capture loop's saved counters and baseline after `i` frames; properties in `RunNext`, `SavedBeforeBoundary` and, through `Scan`, `SavedIff` and `BaselineIsLastSaved` |
| Capture.FullThresholdSavesFirstOnly | makeTabs.py:208-210 | a threshold of 100 or more saves only the first frame |
| Capture.NegativeThresholdSavesAll | makeTabs.py:208-210 | a negative threshold saves every frame |
| Capture.StaticAreaSavesFirstOnly | makeTabs.py:205-222 | a tab area that never changes saves only the first frame |
| Capture.Processed | makeTabs.py:185-198 | the frames processed end before the stream's end and before the boundary; none on a closed capture; on an open one the loop stops only at the end of the stream or when the read position reaches the boundary |
| Capture.ProcessedAll | makeTabs.py:188-198 | the loop's stopping condition is reached exactly at the processed count |
| Capture.ProcessedMore | makeTabs.py:188-198 | while the stopping condition does not hold, more frames remain to be processed |
| Capture.SavedBeforeBoundary | makeTabs.py:194-198 | every saved frame lies before the end of the stream and before the boundary |
| Capture.RunNext | makeTabs.py:205-224 | processing a frame saves it and makes it the baseline iff there is no baseline or it exceeds the baseline strictly; otherwise nothing changes |
| Capture.CaptureLoop | app/util/video_tools.py:130-167 | the loop fails iff a frame is processed and the crop is empty; otherwise it returns the paths of the frames the scan saves; the position ends after the last frame read |
| Capture.CaptureTabFrames | makeTabs.py:180-226 | the same, with the boundary `total_frames - int(end_time * fps)` |
| Layout.BinarisePixel | util/pdf_tools.py:43-45 | a pixel becomes 0 iff it is below 180, and 255 otherwise |
| Layout.Binarise | util/pdf_tools.py:42-45 | binarising keeps the shape and maps every pixel |
| Layout.BinariseIdempotent | util/pdf_tools.py:42-45 | binarising a binarised image changes nothing |
| Layout.Scale | util/pdf_tools.py:49-51 | `min(max_width / img_width, 1.0)`; properties in `ScaleShrinks` |
| Layout.ScaleShrinks | util/pdf_tools.py:49-53 | the scale lies in (0, 1]; a narrow image is kept at its size, a wide one is shrunk to exactly the printable width, and neither width nor height grows |
| Layout.StartCursor | util/pdf_tools.py:29-35 | the cursor starts at the top margin, 24 points lower iff there is a title |
| Layout.Existing | util/pdf_tools.py:37-40 | the existing paths are no more than the paths, and each one exists |
| Layout.Place | util/pdf_tools.py:47-64 | one image placed below the cursor; properties in `PlaceFacts`, `PlacedWell` and `PlaceKeepsStacked` |
| Layout.Step | util/pdf_tools.py:37-64 | one path: skipped when missing, placed otherwise; properties in `MissingFilesSkipped` and `PlacedInOrder` |
| Layout.FlowAfter | util/pdf_tools.py:29-64 | the layout after the first `i` paths; properties in `FlowStacked`, `FlowAfterPrefix`, `PlacedInOrder` and `MissingFilesSkipped` |
| Layout.PlaceFacts | util/pdf_tools.py:47-64 | placing an image appends it; it starts a new page iff `cursor - height < margin`, with its top at the top margin on the new page and at the cursor otherwise; it is centred, at least a margin from the left edge, no wider than the printable width, and binarised; the cursor ends 0.72 below it |
| Layout.MissingFilesSkipped | util/pdf_tools.py:37-40 | the layout of all the paths equals the layout of the existing ones: a missing file changes neither the cursor nor the page |
| Layout.FlowAfterPrefix | util/pdf_tools.py:37 | the layout of the first `i` paths does not look past them |
| Layout.PlacedInOrder | util/pdf_tools.py:37-64 | one placement per existing file, in input order, each showing that file binarised |
| Layout.PlacedWell | util/pdf_tools.py:55-64 | a placed image is centred and below the top margin, follows the previous one, and leaves the cursor below the top margin |
| Layout.PlaceKeepsStacked | util/pdf_tools.py:55-64 | placing an image keeps the whole layout stacked |
| Layout.FlowStacked | util/pdf_tools.py:29-64 | in every layout, each image is centred and below the top margin, starts 0.72 below the previous image on the same page or at the top margin of the next page, and stays above the bottom margin when no taller than the printable height |
| Layout.Canvas.constructor | util/pdf_tools.py:20 | a new canvas is on its first page, with nothing drawn or saved |
| Layout.Canvas.ShowPage | util/pdf_tools.py:57 | ending a page moves to the next one |
| Layout.Canvas.DrawCentredString | util/pdf_tools.py:34 | the text is recorded on the current page |
| Layout.Canvas.DrawImage | util/pdf_tools.py:63 | the image is recorded on the current page at the given place and size |
| Layout.Canvas.Save | util/pdf_tools.py:67 | the document is written |
| Layout.CreatePrintReadyPdf | util/pdf_tools.py:17-68 | with no paths only the empty page is saved, without the title; otherwise the title is drawn at the top of the first page iff it is non-empty, and the images drawn and the final page are those of the layout |
| Layout.SaveAsPdf | makeTabs.py:228-234 | nothing is saved iff the list is empty; a saved document has one page per path, in order; a failure names a listed file that is missing |
| Layout.OpenAll | util/pdf_tools.py:11 | every file is opened, in order, and the first missing one stops it |

## Left out

- Video decoding, `cv2.imwrite`, `cv2.cvtColor` and `Image.open` are library I/O. Frames are modelled as grayscale integer grids that are already decoded. The BGR-to-gray conversion and the RGB conversion in `save_as_pdf` are not modelled. A saved image is identified by its path.
- Video.VideoCapture.SetPosition: seeking is taken to clamp the target into `[0, frame count]`. What OpenCV does with an out-of-range position depends on the backend.
- ChangeDetection.ChangePercent: grids that differ in shape, or have no pixel, are given 0, where OpenCV would raise or divide by zero. No capture or calibration compares such grids (`Capture.TabCropsComparable`, `Calibration.AreaCropsComparable`). Their frames share one shape, and an empty crop fails earlier as `EmptyCrop`.
- Calibration.Decide: `np.std` takes a square root and `round(..., 2)` rounds. Both are floating-point numerics. The estimate is returned as `Estimated(mean, variance, k)`, carrying the exact mean and population variance of the kept samples.
- Percentages, the region scaling and the layout are computed exactly over `real`, not in double precision.
- Video.FramesIn: `int(seconds * fps)` is computed exactly, where the source multiplies in double precision before truncating. The product can fall just below a whole number: `8.2 * 30` is `245.99999999999997` in double precision, so `int()` gives 245 where `FramesIn` gives 246. The same holds for `Video.EndFrame` and for their users `Calibration.SampleWindow`, `Video.SkipEdges` and `Video.ResetCapPosition`. The capture boundary and the calibration window can therefore differ by one frame from the source's.
- The `input()` prompts of `get_similarity_threshold` are interactive and are not modelled. Neither are the `cv2.selectROI` picker (only its place in `SelectTabArea`), `argparse` and `main`.
- The yt-dlp download is not modelled. Neither are the HTTP routes and the browser UI.
- Two call-site mismatches are not modelled:
  - the routes unpack three values from `load_video`, which returns five;
  - the scaling branch of `select_tab_area` reads `roi.x`, while the pass-through branch indexes `roi['x']`.

  Only the arithmetic is modelled.
- Layout.CreatePrintReadyPdf: files are required to be openable with a positive width, with pixels of the size the file reports (`Openable`). A PNG cannot have zero width, and the division by the width is only defined for positive widths. Fonts, the output path, `ImageReader` and the rendering itself are not modelled.
- Layout.SaveAsPdf: writing the multi-page file is not modelled.
- Console messages are not modelled.
