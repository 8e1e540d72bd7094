/** The lock-on tracker of `run_tracking`: the colour range held by the six trackbars, the
    lock (`selected_blob` and `target`), and what the pointer handler was last given (the
    previous frame's candidates and a copy of that frame). */
module Tracking {
  import opened Optional
  import opened Geometry
  import opened Calibration
  import opened Blobs
  import opened Search

  /** The tracker's state as a value. */
  datatype State = State(
    range: HsvRange,
    selected: Option<Rect>,
    target: Option<Point>,
    candidates: seq<Rect>,
    frame: Image)

  /** `ord('q')` and `ord('r')`. */
  const QUIT_KEY := 113
  const RESET_KEY := 114

  /** `waitKey(1) & 0xFF`: the low byte of the key code (no key pressed is -1, giving 255). */
  function KeyByte(code: int): (b: int)
    ensures 0 <= b < 256
    ensures (code - b) % 256 == 0
  {
    code % 256
  }

  /** What one iteration of the frame loop receives from outside: the frame (in HSV), the
      external contours found in its mask, the pointer events delivered while the loop waits
      for a key, and the key code. */
  datatype FrameInput = FrameInput(frame: Image, contours: seq<Contour>, pointer: seq<Point>, key: int)

  /** `target` is present exactly when `selected_blob` is, and is its centre. */
  predicate LockConsistent(s: State) {
    (s.target.Some? <==> s.selected.Some?) &&
    (s.selected.Some? ==> s.target.value == Centre(s.selected.value))
  }

  /** The stored candidates are rectangles inside the stored frame copy. */
  predicate CandidatesFit(s: State) {
    forall i :: 0 <= i < |s.candidates| ==> Fits(s.candidates[i], s.frame)
  }

  predicate Inv(s: State) {
    RangeInBounds(s.range) && LockConsistent(s) && CandidatesFit(s)
  }

  predicate Unlocked(s: State) {
    s.selected.None? && s.target.None?
  }

  /** The contour finder only reports rectangles inside the frame it was given. */
  predicate ContoursFit(f: FrameInput) {
    forall i :: 0 <= i < |f.contours| ==> Fits(f.contours[i].rect, f.frame)
  }

  predicate AllFit(inputs: seq<FrameInput>) {
    forall i :: 0 <= i < |inputs| ==> ContoursFit(inputs[i])
  }

  /** Start-up: default trackbars, no lock, nothing stored for the pointer handler. */
  function Initial(): State {
    State(DEFAULT_RANGE, None, None, [], [])
  }

  function LockOnto(s: State, b: Rect): State {
    s.(selected := Some(b), target := Some(Centre(b)))
  }

  /** Lock maintenance on the current frame's candidates (skipped when unlocked or when the
      frame has no candidates). */
  function AfterMaintain(s: State, blobs: seq<Rect>, threshold: nat): (r: State)
    ensures r.range == s.range && r.candidates == s.candidates && r.frame == s.frame
  {
    if s.target.Some? && blobs != [] then
      match Nearest(blobs, s.target.value, threshold)
      case Some(k) => LockOnto(s, blobs[k])
      case None => s.(selected := None, target := None)
    else s
  }

  /** One pointer event: every event kind selects, locked or not, against the stored
      candidates, and a hit recalibrates the range from the stored frame. */
  function AfterPointer(s: State, p: Point): (r: State)
    requires CandidatesFit(s)
    ensures r.candidates == s.candidates && r.frame == s.frame
  {
    match FirstHit(s.candidates, p)
    case None => s
    case Some(k) =>
      var b := s.candidates[k];
      LockOnto(s, b).(range := Calibrate(Region(s.frame, b), DEFAULT_TOLERANCE))
  }

  /** The pointer events of one wait, in the order they arrive. */
  function AfterPointers(s: State, ps: seq<Point>): (r: State)
    requires CandidatesFit(s)
    ensures r.candidates == s.candidates && r.frame == s.frame
  {
    if ps == [] then s
    else AfterPointer(AfterPointers(s, ps[..|ps| - 1]), ps[|ps| - 1])
  }

  /** The reset key: no lock and the default black range. */
  function AfterReset(s: State): State {
    s.(selected := None, target := None, range := DEFAULT_RANGE)
  }

  lemma FilteredFits(f: FrameInput)
    requires ContoursFit(f)
    ensures forall k :: 0 <= k < |Filtered(f.contours)| ==> Fits(Filtered(f.contours)[k], f.frame)
  {
    forall k | 0 <= k < |Filtered(f.contours)| ensures Fits(Filtered(f.contours)[k], f.frame) {
      FilteredFrom(f.contours, k);
    }
  }

  /** One iteration of the frame loop: filter, maintain, the pointer events of the key wait,
      then the key; unless it is the quit key, the new candidates and frame are stored for
      the pointer handler. The flag says whether the loop goes on. */
  function AfterFrame(s: State, f: FrameInput, threshold: nat): (r: (State, bool))
    requires CandidatesFit(s) && ContoursFit(f)
    ensures CandidatesFit(r.0)
    ensures r.1 <==> KeyByte(f.key) != QUIT_KEY
  {
    var blobs := Filtered(f.contours);
    var waited := AfterPointers(AfterMaintain(s, blobs, threshold), f.pointer);
    if KeyByte(f.key) == QUIT_KEY then (waited, false)
    else
      var keyed := if KeyByte(f.key) == RESET_KEY then AfterReset(waited) else waited;
      FilteredFits(f);
      (keyed.(candidates := blobs, frame := f.frame), true)
  }

  /** The frame loop over a stream of frames; the end of the stream is a failed capture.
      Yields the final state and the number of frames consumed. */
  function RunFrames(s: State, inputs: seq<FrameInput>, threshold: nat): (r: (State, nat))
    requires CandidatesFit(s) && AllFit(inputs)
    decreases |inputs|
  {
    if inputs == [] then (s, 0)
    else
      var (t, running) := AfterFrame(s, inputs[0], threshold);
      if !running then (t, 1)
      else
        var (u, n) := RunFrames(t, inputs[1..], threshold);
        (u, n + 1)
  }

  // ---- Properties of the specification ----

  lemma InitialInv()
    ensures Inv(Initial()) && Unlocked(Initial())
  {
  }

  lemma MaintainInv(s: State, blobs: seq<Rect>, threshold: nat)
    requires Inv(s)
    ensures Inv(AfterMaintain(s, blobs, threshold))
  {
  }

  lemma PointerInv(s: State, p: Point)
    requires Inv(s)
    ensures Inv(AfterPointer(s, p))
  {
  }

  lemma {:induction false} PointersInv(s: State, ps: seq<Point>)
    requires Inv(s)
    ensures Inv(AfterPointers(s, ps))
  {
    if ps != [] {
      PointersInv(s, ps[..|ps| - 1]);
      PointerInv(AfterPointers(s, ps[..|ps| - 1]), ps[|ps| - 1]);
    }
  }

  /** Reset yields an unlocked tracker with the default range from any state. */
  lemma ResetRestores(s: State)
    ensures Unlocked(AfterReset(s)) && AfterReset(s).range == DEFAULT_RANGE
  {
  }

  lemma ResetInv(s: State)
    requires CandidatesFit(s)
    ensures Inv(AfterReset(s))
  {
  }

  lemma FrameInv(s: State, f: FrameInput, threshold: nat)
    requires Inv(s) && ContoursFit(f)
    ensures Inv(AfterFrame(s, f, threshold).0)
  {
    var blobs := Filtered(f.contours);
    MaintainInv(s, blobs, threshold);
    PointersInv(AfterMaintain(s, blobs, threshold), f.pointer);
  }

  lemma {:induction false} RunInv(s: State, inputs: seq<FrameInput>, threshold: nat)
    requires Inv(s) && AllFit(inputs)
    ensures Inv(RunFrames(s, inputs, threshold).0)
    decreases |inputs|
  {
    if inputs != [] {
      FrameInv(s, inputs[0], threshold);
      var (t, running) := AfterFrame(s, inputs[0], threshold);
      if running {
        RunInv(t, inputs[1..], threshold);
      }
    }
  }

  /** The loop consumes frames up to and including the first one whose key is `q`, or the
      whole stream when no such key comes. */
  lemma {:induction false} RunLength(s: State, inputs: seq<FrameInput>, threshold: nat)
    requires CandidatesFit(s) && AllFit(inputs)
    ensures var n := RunFrames(s, inputs, threshold).1;
      n <= |inputs| &&
      (n == |inputs| || (0 < n && KeyByte(inputs[n - 1].key) == QUIT_KEY)) &&
      forall i :: 0 <= i < n - 1 ==> KeyByte(inputs[i].key) != QUIT_KEY
    decreases |inputs|
  {
    if inputs != [] {
      var (t, running) := AfterFrame(s, inputs[0], threshold);
      if running {
        RunLength(t, inputs[1..], threshold);
        var n := RunFrames(t, inputs[1..], threshold).1;
        forall i | 0 < i < n ensures inputs[i] == inputs[1..][i - 1] { }
      }
    }
  }

  /** Locked with candidates: the lock moves to the earliest nearest candidate strictly within
      the threshold, and is dropped (both fields) when none is within it. */
  lemma MaintainOutcome(s: State, blobs: seq<Rect>, threshold: nat)
    requires s.target.Some? && blobs != []
    ensures var r := AfterMaintain(s, blobs, threshold);
      (NoneWithin(blobs, s.target.value, threshold) ==> Unlocked(r)) &&
      (!NoneWithin(blobs, s.target.value, threshold) ==>
         exists k: nat :: IsNearest(blobs, s.target.value, threshold, k) && r == LockOnto(s, blobs[k]))
  {
    NearestCorrect(blobs, s.target.value, threshold);
  }

  /** Unlocked, or a frame without candidates: the lock is left exactly as it was, so an
      empty frame does not drop the lock. */
  lemma MaintainSkipped(s: State, blobs: seq<Rect>, threshold: nat)
    requires s.target.None? || blobs == []
    ensures AfterMaintain(s, blobs, threshold) == s
  {
  }

  /** A candidate that has not moved (distance 0) keeps the lock at the same centre. */
  lemma MaintainStationary(s: State, blobs: seq<Rect>, threshold: nat, j: nat)
    requires Inv(s) && s.target.Some? && threshold > 0
    requires j < |blobs| && Centre(blobs[j]) == s.target.value
    ensures AfterMaintain(s, blobs, threshold).target == s.target
    ensures AfterMaintain(s, blobs, threshold).selected.Some?
  {
    NearestStationary(blobs, s.target.value, threshold, j);
  }

  /** A pointer event locks onto the first stored candidate containing it, whatever the lock
      was, and recalibrates from that candidate's region; off every candidate it changes
      nothing. */
  lemma PointerOutcome(s: State, p: Point)
    requires CandidatesFit(s)
    ensures (forall j :: 0 <= j < |s.candidates| ==> !Contains(s.candidates[j], p)) ==>
              AfterPointer(s, p) == s
    ensures forall k :: 0 <= k < |s.candidates| && Contains(s.candidates[k], p) &&
                        (forall j :: 0 <= j < k ==> !Contains(s.candidates[j], p)) ==>
              AfterPointer(s, p) ==
                LockOnto(s, s.candidates[k]).(range := Calibrate(Region(s.frame, s.candidates[k]), DEFAULT_TOLERANCE))
  {
    FirstHitCorrect(s.candidates, p);
  }

  /** One frame, with no pointer event and neither `q` nor `r`, whose contours include a large
      one centred on the locked centre keeps the lock there. */
  lemma FrameStationary(s: State, f: FrameInput, threshold: nat, i: nat)
    requires Inv(s) && ContoursFit(f) && s.target.Some? && threshold > 0
    requires f.pointer == [] && KeyByte(f.key) != QUIT_KEY && KeyByte(f.key) != RESET_KEY
    requires i < |f.contours| && Large(f.contours[i]) && Centre(f.contours[i].rect) == s.target.value
    ensures AfterFrame(s, f, threshold).0.target == s.target
  {
    FilteredCorrect(f.contours);
    var blobs := Filtered(f.contours);
    var k :| 0 <= k < |Kept(f.contours)| && Kept(f.contours)[k] == i;
    MaintainStationary(s, blobs, threshold, k);
  }

  /** A frame with no pointer event, neither `q` nor `r`, and a large contour centred on t. */
  predicate StationaryFrame(f: FrameInput, t: Point) {
    f.pointer == [] && KeyByte(f.key) != QUIT_KEY && KeyByte(f.key) != RESET_KEY &&
    exists i :: 0 <= i < |f.contours| && Large(f.contours[i]) && Centre(f.contours[i].rect) == t
  }

  /** Over a stream of frames that each hold a large contour centred on the lock, with no
      pointer events and no `q` or `r`, the lock never moves and is never lost. */
  lemma {:induction false} RunStationary(s: State, inputs: seq<FrameInput>, threshold: nat)
    requires Inv(s) && AllFit(inputs) && s.target.Some? && threshold > 0
    requires forall n :: 0 <= n < |inputs| ==> StationaryFrame(inputs[n], s.target.value)
    ensures RunFrames(s, inputs, threshold).0.target == s.target
    decreases |inputs|
  {
    if inputs != [] {
      var f := inputs[0];
      var i :| 0 <= i < |f.contours| && Large(f.contours[i]) && Centre(f.contours[i].rect) == s.target.value;
      FrameStationary(s, f, threshold, i);
      FrameInv(s, f, threshold);
      var t := AfterFrame(s, f, threshold).0;
      forall n | 0 <= n < |inputs[1..]| ensures StationaryFrame(inputs[1..][n], t.target.value) {
        assert inputs[1..][n] == inputs[n + 1];
      }
      RunStationary(t, inputs[1..], threshold);
    }
  }

  /** Pointer events are matched against the previous frame's candidates: a pointer on a
      blob that only the current frame has does not lock on. */
  lemma PointerSeesPreviousFrame(s: State, f: FrameInput, threshold: nat, p: Point)
    requires CandidatesFit(s) && ContoursFit(f) && Unlocked(s)
    requires f.pointer == [p]
    requires forall j :: 0 <= j < |s.candidates| ==> !Contains(s.candidates[j], p)
    requires exists k :: 0 <= k < |Filtered(f.contours)| && Contains(Filtered(f.contours)[k], p)
    ensures Unlocked(AfterFrame(s, f, threshold).0)
  {
    FirstHitCorrect(s.candidates, p);
    var blobs := Filtered(f.contours);
    assert AfterMaintain(s, blobs, threshold) == s;
    assert f.pointer[..0] == [];
    assert AfterPointers(s, f.pointer) == AfterPointer(s, p) == s;
  }

  /** A single candidate at (100, 100, 50, 50) and a pointer at (110, 110): the tracker locks
      on with target (125, 125). */
  lemma SelectScenario(s: State)
    requires CandidatesFit(s) && s.candidates == [Rect(100, 100, 50, 50)]
    ensures AfterPointer(s, Point(110, 110)).selected == Some(Rect(100, 100, 50, 50))
    ensures AfterPointer(s, Point(110, 110)).target == Some(Point(125, 125))
  {
  }

  /** Locked at (125, 125), the only candidate centred at (400, 400): with a threshold of 100
      the lock is lost; with the threshold of 2000 used by the frame loop it follows. */
  lemma LossScenario(s: State)
    requires s.target == Some(Point(125, 125))
    ensures Unlocked(AfterMaintain(s, [Rect(375, 375, 50, 50)], 100))
    ensures AfterMaintain(s, [Rect(375, 375, 50, 50)], 2000).target == Some(Point(400, 400))
  {
  }

  /** The tracker object: the six trackbar positions, the lock fields of the shared state,
      and the pointer handler's stored candidates and frame copy. */
  class Tracker {
    var lowH: int
    var lowS: int
    var lowV: int
    var highH: int
    var highS: int
    var highV: int
    var selected: Option<Rect>
    var target: Option<Point>
    var candidates: seq<Rect>
    var frame: Image
    const lockThreshold: nat

    function Range(): HsvRange
      reads this
    {
      HsvRange(Hsv(lowH, lowS, lowV), Hsv(highH, highS, highV))
    }

    function View(): State
      reads this
    {
      State(Range(), selected, target, candidates, frame)
    }

    ghost predicate Valid()
      reads this
    {
      Inv(View())
    }

    /** Trackbars created at their defaults, lock fields cleared, nothing stored yet. */
    constructor (lockThreshold: nat)
      ensures Valid() && View() == Initial() && this.lockThreshold == lockThreshold
    {
      lowH, lowS, lowV := 0, 0, 0;
      highH, highS, highV := 180, 255, 50;
      selected, target := None, None;
      candidates, frame := [], [];
      this.lockThreshold := lockThreshold;
    }

    /** The six `setTrackbarPos` calls. */
    method SetRange(r: HsvRange)
      requires RangeInBounds(r)
      modifies this
      ensures View() == old(View()).(range := r)
    {
      lowH, lowS, lowV := r.lower.h, r.lower.s, r.lower.v;
      highH, highS, highV := r.upper.h, r.upper.s, r.upper.v;
    }

    method Maintain(blobs: seq<Rect>)
      requires Valid()
      modifies this
      ensures Valid()
      ensures View() == AfterMaintain(old(View()), blobs, lockThreshold)
    {
      MaintainInv(View(), blobs, lockThreshold);
      if target.Some? && |blobs| > 0 {
        var closest := FindNearest(blobs, target.value, lockThreshold);
        if closest.Some? {
          var b := blobs[closest.value];
          selected := Some(b);
          target := Some(Centre(b));
        } else {
          selected := None;
          target := None;
        }
      }
    }

    method Select(p: Point)
      requires Valid()
      modifies this
      ensures Valid()
      ensures View() == AfterPointer(old(View()), p)
    {
      PointerInv(View(), p);
      var hit := FindHit(candidates, p);
      if hit.Some? {
        var b := candidates[hit.value];
        selected := Some(b);
        target := Some(Centre(b));
        SetRange(Calibrate(Region(frame, b), DEFAULT_TOLERANCE));
      }
    }

    method Reset()
      requires Valid()
      modifies this
      ensures Valid()
      ensures View() == AfterReset(old(View()))
    {
      ResetInv(View());
      selected := None;
      target := None;
      SetRange(DEFAULT_RANGE);
    }

    method Step(input: FrameInput) returns (running: bool)
      requires Valid() && ContoursFit(input)
      modifies this
      ensures Valid()
      ensures (View(), running) == AfterFrame(old(View()), input, lockThreshold)
    {
      FrameInv(View(), input, lockThreshold);
      var blobs := FilterBlobs(input.contours);
      Maintain(blobs);
      ghost var maintained := View();
      for i := 0 to |input.pointer|
        invariant Valid() && View() == AfterPointers(maintained, input.pointer[..i])
      {
        Select(input.pointer[i]);
        assert input.pointer[..i + 1][..i] == input.pointer[..i];
      }
      assert input.pointer[..|input.pointer|] == input.pointer;
      var key := KeyByte(input.key);
      if key == QUIT_KEY {
        return false;
      }
      if key == RESET_KEY {
        Reset();
      }
      candidates := blobs;
      frame := input.frame;
      return true;
    }

    method Run(inputs: seq<FrameInput>) returns (frames: nat)
      requires Valid() && AllFit(inputs)
      modifies this
      ensures Valid()
      ensures (View(), frames) == RunFrames(old(View()), inputs, lockThreshold)
    {
      frames := 0;
      while frames < |inputs|
        invariant frames <= |inputs| && Valid()
        invariant RunFrames(old(View()), inputs, lockThreshold) ==
                  (RunFrames(View(), inputs[frames..], lockThreshold).0,
                   RunFrames(View(), inputs[frames..], lockThreshold).1 + frames)
      {
        assert inputs[frames..][0] == inputs[frames];
        assert inputs[frames..][1..] == inputs[frames + 1..];
        var running := Step(inputs[frames]);
        frames := frames + 1;
        if !running {
          return;
        }
      }
    }
  }
}
