# OrbEye lock-on tracker, modelled in Dafny

OrbEye follows a coloured object in a camera stream. Each frame is thresholded to an HSV colour
range. The contours of the resulting mask become candidate blobs. The operator locks onto one
blob by pointing at it, which also narrows the colour range to that blob's mean colour. From
then on the lock follows the nearest blob from frame to frame, until no blob is close enough.
A separate actuation loop polls the shared state and prints one motor message per poll.

This project models that core as Dafny:

- `geometry.dfy` (`Geometry`): rectangles, the floor-division centre `(x + w // 2, y + h // 2)`,
  the inclusive point-in-rectangle test, squared distances.
- `calibration.dfy` (`Calibration`): the HSV range, its bounds and default, the truncated
  per-channel mean of a region, and the clipped mean ± tolerance window
  (`update_hsv_range_from_blob`).
- `blobs.dfy` (`Blobs`): the area > 500 blob filter.
- `search.dfy` (`Search`): the two searches of the lock engine. One finds the first candidate
  under the pointer. The other is the nearest-neighbour gate, with its strict comparisons.
- `tracking.dfy` (`Tracking`): the tracker's state as a value (`State`) and one specification
  function per transition: maintenance, pointer event, reset, one frame, the frame loop. The
  `Tracker` class holds the six trackbar positions, `selected_blob`, `target`, and the
  pointer handler's stored candidates and frame copy. Its methods are proved against those
  functions.
- `motor.dfy` (`Motor`): the direction → message chain and the shutdown-guarded polling loop.
- `optional.dfy` (`Optional`): the `Option` type for Python's `None`.

How the code is read:

- The pointer handler runs while the frame loop waits for a key (`waitKey`). That is after lock
  maintenance and before the new candidates and frame copy are stored. So pointer events are
  matched against the previous frame's candidates and calibrate from the previous frame.
- Every pointer event selects, because the event kind is never checked, and selection works
  while already locked.
- A reset key in the same wait is applied after those pointer events.
- The key is `waitKey(1) & 0xFF`, written as `code % 256`. Dafny's `%` is Euclidean, which
  equals Python's `&` with 0xFF for negative codes too.
- `np.hypot(...) < t` is written exactly as a squared distance compared with `t * t`, where
  the threshold `t` is a parameter (2000 in the frame loop).
- `np.mean(...).astype(int)` truncates toward zero and is written as `Quot`.
- A frame is a sequence of rows of HSV pixels. A region is the rows `y .. y+h` and the columns
  `x .. x+w`, flattened row after row.

Where the intended design of the system and its code differ, the model follows the code:

- The lock is lost when the nearest distance is at or above the threshold (`dist < threshold`
  is needed to keep it), not only when it strictly exceeds it.
- Acquisition is not limited to the unlocked state or to clicks.
- Candidates are matched one frame late, as described above.
- The centre uses floor division.
- `target` and `selected_blob` are written as two separate updates. The model treats each
  tracker operation as one step.

## Model

| member | source | states |
|---|---|---|
| Geometry.Centre | webcam_test.py:39 | the centre's offsets are the floor halves of w and h (2·dx ≤ w < 2·dx + 2), and it lies inside any rectangle of non-negative size |
| Geometry.Contains | webcam_test.py:37 | body: the inclusive test bx ≤ x ≤ bx + bw and by ≤ y ≤ by + bh, so points on the right and bottom edge lines count |
| Geometry.Dist2 | webcam_test.py:116 | the squared distance is zero exactly when the two centres coincide |
| Calibration.Clip | webcam_test.py:18-19 | a clipped value lies in [lo, hi] and is unchanged when already inside |
| Calibration.ClipHsv | webcam_test.py:18-19 | every clipped triple is a valid trackbar position (hue in [0,180], S and V in [0,255]), and valid triples are left unchanged |
| Calibration.Quot | webcam_test.py:13 | the integer cast of the mean truncates toward zero: n·q ≤ a < n·q + n for a ≥ 0, n·q − n < a ≤ n·q for a < 0 |
| Calibration.Sum | webcam_test.py:13 | body: the channel-wise sum of the region's pixels, the numerator of np.mean over axis 0 |
| Calibration.Mean | webcam_test.py:13 | body: each channel's sum divided by the pixel count, truncated toward zero as `.astype(int)` does; defined only for a non-empty region |
| Calibration.Calibrate | webcam_test.py:9-19 | both ends of the recalibrated range are within the trackbar bounds, whatever the region's pixels and the tolerance |
| Calibration.CalibrateOrdered | webcam_test.py:15-19 | with a non-negative tolerance, lower ≤ upper on every channel |
| Calibration.CalibrateExact | webcam_test.py:15-19 | when no clipping is needed, lower = mean − tolerance and upper = mean + tolerance exactly |
| Calibration.SumBetween | webcam_test.py:13 | the channel sums of n pixels inside a box [lo, hi] lie between n·lo and n·hi |
| Calibration.QuotBetween | webcam_test.py:13 | truncating a sum in [n·lo, n·hi] by n gives a value in [lo, hi], for either sign |
| Calibration.MeanBetween | webcam_test.py:13 | the truncated per-channel mean of pixels that all lie in a box lies in that box |
| Calibration.MeanInBounds | webcam_test.py:13 | the mean of valid HSV pixels is a valid HSV triple |
| Calibration.MeanUniform | webcam_test.py:13 | a region of one colour has exactly that colour as its mean |
| Calibration.Region | webcam_test.py:11 | the region of a w×h rectangle inside the frame has w·h > 0 pixels, so the mean is defined |
| Calibration.Columns | webcam_test.py:11 | the selected columns of the given rows, row after row, have exactly (number of rows)·w pixels |
| Calibration.ColumnsAt | webcam_test.py:11 | the pixel at row i, column x + j of the rows sits at position i·w + j of the selection |
| Calibration.RegionAt | webcam_test.py:11-13 | every pixel of the rectangle appears in the region at its row-major position i·w + j; with the length w·h, the region is exactly the rectangle's pixels, each once |
| Calibration.RegionInside | webcam_test.py:11 | every pixel of the region is a frame pixel inside the rectangle |
| Calibration.RegionMeanInBounds | webcam_test.py:11-13 | a frame of valid HSV pixels gives every region a valid mean |
| Blobs.FilterBlobs | webcam_test.py:100-105 | the filtering loop returns exactly the candidate list of the filter specification |
| Blobs.Filtered | webcam_test.py:100-105 | body: the candidate list built contour by contour, appending the bounding rectangle when the area exceeds 500 |
| Blobs.FilteredCorrect | webcam_test.py:100-105 | the candidates are, in order, the rectangles of exactly the contours with area strictly above 500; their positions are increasing and include every such contour |
| Blobs.FilteredFrom | webcam_test.py:100-105 | every candidate is the bounding rectangle of some contour with area above 500 |
| Search.FirstHitCorrect | webcam_test.py:36-42 | the hit is the first rectangle in list order containing the point (inclusive edges); there is no hit exactly when no rectangle contains it |
| Search.FirstHit | webcam_test.py:36-42 | the first-hit search by list order; the index it returns is a position of the list |
| Search.FindHit | webcam_test.py:36-42 | the for/break loop returns the first rectangle containing the point, or none when no rectangle does |
| Search.NearestCorrect | webcam_test.py:111-119 | the scan returns the earliest candidate of least distance among those strictly within the threshold, and nothing exactly when no candidate is strictly within it |
| Search.Nearest | webcam_test.py:112-119 | the scan one candidate at a time, replacing the best only when strictly closer and strictly within the threshold; the index it returns is a position of the list |
| Search.NearestStationary | webcam_test.py:114-119 | a candidate at distance 0 makes the search succeed at that same centre whenever the threshold is positive |
| Search.FindNearest | webcam_test.py:112-119 | the argmin loop with its two strict comparisons returns the earliest nearest candidate strictly within the threshold, or none when none is |
| Tracking.KeyByte | webcam_test.py:145 | the key byte is in [0,256) and agrees with the key code modulo 256 |
| Tracking.Initial | webcam_test.py:52-65 | body: default trackbars (0,0,0)–(180,255,50), selected_blob and target None, no stored candidates or frame |
| Tracking.AfterMaintain | webcam_test.py:107-128 | maintenance changes only the lock: range, stored candidates and frame copy stay as they were |
| Tracking.AfterPointer | webcam_test.py:32-42 | a pointer event leaves the stored candidates and frame copy as they were; body: the first stored hit becomes selected_blob, its centre the target, and the range is recalibrated from its region |
| Tracking.AfterPointers | webcam_test.py:32-42 | the pointer events of one wait, applied in arrival order, leave the stored candidates and frame copy as they were |
| Tracking.AfterReset | webcam_test.py:148-158 | body: both lock fields None and the range back to the default |
| Tracking.AfterFrame | webcam_test.py:75-164 | one frame keeps the stored candidates inside the stored frame, and the loop continues exactly when the key byte is not `q` |
| Tracking.RunFrames | webcam_test.py:75-164 | body: the frame loop over a stream, applying one frame at a time and stopping after the frame whose key is `q` or at the end of the stream; yields the final state and the frames consumed |
| Tracking.InitialInv | webcam_test.py:52-65 | start-up is unlocked, with the default range, and satisfies the tracker invariant |
| Tracking.MaintainInv | webcam_test.py:121-128 | maintenance keeps target present iff selected_blob is present, with target its centre |
| Tracking.PointerInv | webcam_test.py:36-42 | a pointer event keeps the lock consistent and the range within the trackbar bounds |
| Tracking.PointersInv | webcam_test.py:32-42 | any sequence of pointer events keeps the tracker invariant |
| Tracking.ResetRestores | webcam_test.py:148-158 | reset yields unlocked plus the default range (0,0,0)–(180,255,50), from any state |
| Tracking.ResetInv | webcam_test.py:148-158 | reset keeps the tracker invariant whenever the stored candidates fit the stored frame |
| Tracking.FrameInv | webcam_test.py:75-164 | one iteration of the frame loop preserves the tracker invariant |
| Tracking.RunInv | webcam_test.py:75-164 | the whole frame loop preserves the tracker invariant |
| Tracking.RunLength | webcam_test.py:144-147 | the loop consumes frames up to and including the first with key `q`, or the whole stream when none has it |
| Tracking.MaintainOutcome | webcam_test.py:111-128 | when locked with candidates, the lock moves to the earliest nearest candidate strictly within the threshold, and both lock fields become None when no candidate is within it |
| Tracking.MaintainSkipped | webcam_test.py:111 | when unlocked, or when the frame has no candidates, maintenance changes nothing, so an empty frame keeps the lock |
| Tracking.MaintainStationary | webcam_test.py:114-124 | a candidate that has not moved keeps the lock at the same centre |
| Tracking.PointerOutcome | webcam_test.py:36-42 | a pointer event locks onto the first stored candidate containing it, locked or not, and sets the range from that candidate's region; off every candidate it changes nothing |
| Tracking.FrameStationary | webcam_test.py:100-124 | a frame holding a large contour centred on the lock, with no pointer event and no `q` or `r`, keeps the target |
| Tracking.RunStationary | webcam_test.py:75-128 | over a whole stream of frames each holding a large contour centred on the lock, with no pointer events and no `q` or `r`, the target never changes and the lock is never lost |
| Tracking.PointerSeesPreviousFrame | webcam_test.py:162-163 | pointer events are matched against the previous frame's candidates: a pointer on a candidate of the current frame that misses every stored candidate leaves an unlocked tracker unlocked |
| Tracking.SelectScenario | webcam_test.py:36-39 | one candidate (100,100,50,50) and a pointer at (110,110) give the lock with target (125,125) |
| Tracking.LossScenario | webcam_test.py:111-128 | locked at (125,125) with the only candidate centred at (400,400): threshold 100 loses the lock, threshold 2000 follows the candidate |
| Tracking.Tracker.constructor | webcam_test.py:46-65 | the trackbars start at the default range, both lock fields are None, nothing is stored, and the threshold is recorded |
| Tracking.Tracker.SetRange | webcam_test.py:22-27 | for a range within the trackbar bounds, the six trackbar positions become that range, and nothing else changes |
| Tracking.Tracker.Maintain | webcam_test.py:107-128 | the new state is the maintenance specification applied to the old state, and the invariant is kept |
| Tracking.Tracker.Select | webcam_test.py:32-42 | the new state is the pointer-event specification applied to the old state, and the invariant is kept |
| Tracking.Tracker.Reset | webcam_test.py:148-158 | the new state is the reset specification applied to the old state (unlocked, default range) |
| Tracking.Tracker.Step | webcam_test.py:75-164 | one frame-loop iteration: the new state and the continue flag are the frame specification applied to the old state |
| Tracking.Tracker.Run | webcam_test.py:75-164 | the frame loop over a stream: the final state and the number of frames consumed are those of the loop specification |
| Motor.Command | motorcontroller.py:5-18 | the message is one of the six; it is "No target" exactly when the direction is missing, None, or not one of left/right/up/down/center |
| Motor.CommandTable | motorcontroller.py:7-16 | each known direction maps to the message at the same position of the table |
| Motor.CommandPan | motorcontroller.py:7-10 | "left" gives "Pan left" and "right" gives "Pan right" |
| Motor.CommandTilt | motorcontroller.py:11-14 | "up" gives "Tilt up" and "down" gives "Tilt down" |
| Motor.CommandCentered | motorcontroller.py:15-16 | "center" gives "Target centered" |
| Motor.CommandInjective | motorcontroller.py:7-16 | two directions with the same message other than "No target" are the same direction |
| Motor.ShutdownRequested | motorcontroller.py:4 | body: a snapshot requests shutdown only when the key holds True; a missing key is read as False |
| Motor.Poll | motorcontroller.py:4-20 | one message per snapshot, each the command for that snapshot's direction, while shutdown is not requested (a missing key counts as false); nothing from the first snapshot that requests shutdown |

## Left out

- OpenCV pixel operations are not modelled: colour conversion, `inRange`, erosion and
  dilation, contour finding, contour area and bounding rectangles. Their results are inputs:
  an HSV frame and, per contour, its area and bounding rectangle. Rectangles are assumed to
  lie inside their frame, as bounding rectangles of contours do (`Fits`).
- The annotations drawn before the frame copy is stored are not modelled. In the program,
  those drawn pixels are part of what calibration averages.
- Windows, trackbar creation, drawing, `imshow`, mouse-callback registration and `print`
  are UI plumbing and are not modelled. Operator dragging of the sliders is not modelled;
  any position a slider can reach is within the bounds the invariant keeps.
- Camera open failure is not modelled. A failed read ends the stream, so the end of the
  input sequence stands for it.
- `np.hypot` in floating point is replaced by exact integer squared distances. At pixel scale
  this gives the same comparisons.
- Integer widths are not modelled. numpy's 64-bit arithmetic cannot overflow at pixel scale.
- Motor.Poll: the program keeps polling forever while shutdown stays false. The model reads
  a finite sequence of snapshots, each one a single read of both keys, so torn reads between
  processes are not represented.
- Motor.Command: directions are modelled as strings or None. Any other Python value, like a
  string outside the five, gives "No target".
- The 0.1 s sleep of the actuation loop is not modelled (timing).
- main.py (process start-up and the shutdown supervisor), GUI.py (orbit rendering) and
  ai_object_detector.py (YOLO wrapper) are not part of this model. They are concurrency,
  rendering and a foreign model.
- Nothing in the code derives `direction` from `target`, so the model does not invent a
  mapping.
