/** The HSV colour range and its recalibration from a selected region
    (`update_hsv_range_from_blob`). */
module Calibration {
  import opened Geometry

  /** An HSV triple: a pixel, a mean colour, a tolerance or one end of the range. */
  datatype Hsv = Hsv(h: int, s: int, v: int)

  /** The colour filter's range; its six numbers are the six trackbar positions. */
  datatype HsvRange = HsvRange(lower: Hsv, upper: Hsv)

  /** Trackbar maxima: hue runs to 180, saturation and value to 255. */
  const HUE_MAX := 180
  const SAT_VAL_MAX := 255

  /** The default range selects black. */
  const DEFAULT_RANGE := HsvRange(Hsv(0, 0, 0), Hsv(180, 255, 50))

  /** Half-width of the window placed around a selected region's mean colour. */
  const DEFAULT_TOLERANCE := Hsv(10, 50, 50)

  /** Every channel is a valid trackbar position. */
  predicate InBounds(c: Hsv) {
    0 <= c.h <= HUE_MAX && 0 <= c.s <= SAT_VAL_MAX && 0 <= c.v <= SAT_VAL_MAX
  }

  predicate RangeInBounds(r: HsvRange) {
    InBounds(r.lower) && InBounds(r.upper)
  }

  /** Channel-wise a <= b. */
  predicate Le(a: Hsv, b: Hsv) {
    a.h <= b.h && a.s <= b.s && a.v <= b.v
  }

  function Add(a: Hsv, b: Hsv): Hsv {
    Hsv(a.h + b.h, a.s + b.s, a.v + b.v)
  }

  function Sub(a: Hsv, b: Hsv): Hsv {
    Hsv(a.h - b.h, a.s - b.s, a.v - b.v)
  }

  /** numpy's clip of one value into [lo, hi]. */
  function Clip(x: int, lo: int, hi: int): (r: int)
    requires lo <= hi
    ensures lo <= r <= hi
    ensures lo <= x <= hi ==> r == x
  {
    if x < lo then lo else if x > hi then hi else x
  }

  lemma ClipMonotone(x: int, y: int, lo: int, hi: int)
    requires lo <= hi && x <= y
    ensures Clip(x, lo, hi) <= Clip(y, lo, hi)
  {
  }

  /** Clamps a triple into the trackbar bounds, channel by channel. */
  function ClipHsv(c: Hsv): (r: Hsv)
    ensures InBounds(r)
    ensures InBounds(c) ==> r == c
  {
    Hsv(Clip(c.h, 0, HUE_MAX), Clip(c.s, 0, SAT_VAL_MAX), Clip(c.v, 0, SAT_VAL_MAX))
  }

  /** Python's int() of a quotient, which truncates toward zero (Dafny's `/` is Euclidean). */
  function Quot(a: int, n: int): (q: int)
    requires n > 0
    ensures a >= 0 ==> 0 <= n * q <= a < n * q + n
    ensures a < 0 ==> n * q - n < a <= n * q <= 0
  {
    if a >= 0 then DivFloor(a, n); a / n
    else DivFloor(-a, n); -((-a) / n)
  }

  lemma DivFloor(a: nat, n: int)
    requires n > 0
    ensures 0 <= n * (a / n) <= a < n * (a / n) + n
  {
    assert a == n * (a / n) + a % n;
  }

  /** Channel-wise sum of the pixels. */
  function Sum(ps: seq<Hsv>): Hsv {
    if ps == [] then Hsv(0, 0, 0) else Add(ps[0], Sum(ps[1..]))
  }

  /** `np.mean(pixels, axis=0).astype(int)`: the per-channel mean, truncated. */
  function Mean(ps: seq<Hsv>): Hsv
    requires |ps| > 0
  {
    var t := Sum(ps);
    Hsv(Quot(t.h, |ps|), Quot(t.s, |ps|), Quot(t.v, |ps|))
  }

  /** The new range: mean minus and plus the tolerance, each end clipped into the bounds. */
  function Calibrate(ps: seq<Hsv>, tolerance: Hsv): (r: HsvRange)
    requires |ps| > 0
    ensures RangeInBounds(r)
  {
    var m := Mean(ps);
    HsvRange(ClipHsv(Sub(m, tolerance)), ClipHsv(Add(m, tolerance)))
  }

  /** With a non-negative tolerance the calibrated window never inverts. */
  lemma CalibrateOrdered(ps: seq<Hsv>, tolerance: Hsv)
    requires |ps| > 0
    requires Le(Hsv(0, 0, 0), tolerance)
    ensures Le(Calibrate(ps, tolerance).lower, Calibrate(ps, tolerance).upper)
  {
    var m := Mean(ps);
    ClipMonotone(m.h - tolerance.h, m.h + tolerance.h, 0, HUE_MAX);
    ClipMonotone(m.s - tolerance.s, m.s + tolerance.s, 0, SAT_VAL_MAX);
    ClipMonotone(m.v - tolerance.v, m.v + tolerance.v, 0, SAT_VAL_MAX);
  }

  /** When neither end needs clipping the window is exactly mean -/+ tolerance. */
  lemma CalibrateExact(ps: seq<Hsv>, tolerance: Hsv)
    requires |ps| > 0
    requires InBounds(Sub(Mean(ps), tolerance)) && InBounds(Add(Mean(ps), tolerance))
    ensures Calibrate(ps, tolerance) == HsvRange(Sub(Mean(ps), tolerance), Add(Mean(ps), tolerance))
  {
  }

  /** n copies of c, channel-wise. */
  function Scale(n: nat, c: Hsv): Hsv {
    Hsv(n * c.h, n * c.s, n * c.v)
  }

  lemma {:induction false} SumBetween(ps: seq<Hsv>, lo: Hsv, hi: Hsv)
    requires forall i :: 0 <= i < |ps| ==> Le(lo, ps[i]) && Le(ps[i], hi)
    ensures Le(Scale(|ps|, lo), Sum(ps)) && Le(Sum(ps), Scale(|ps|, hi))
  {
    if ps != [] {
      SumBetween(ps[1..], lo, hi);
      var n := |ps|;
      assert n * lo.h == lo.h + (n - 1) * lo.h && n * hi.h == hi.h + (n - 1) * hi.h;
      assert n * lo.s == lo.s + (n - 1) * lo.s && n * hi.s == hi.s + (n - 1) * hi.s;
      assert n * lo.v == lo.v + (n - 1) * lo.v && n * hi.v == hi.v + (n - 1) * hi.v;
    }
  }

  lemma MulLess(n: int, a: int, b: int)
    requires n > 0 && n * a < n * b
    ensures a < b
  {
  }

  /** A truncated quotient of a value in [n * lo, n * hi] lies in [lo, hi], whatever the signs. */
  lemma QuotBetween(a: int, n: int, lo: int, hi: int)
    requires n > 0 && n * lo <= a <= n * hi
    ensures lo <= Quot(a, n) <= hi
  {
    var q := Quot(a, n);
    if a >= 0 {
      MulLess(n, lo, q + 1);
      if q > hi { MulLess(n, hi, q); }
    } else {
      MulLess(n, q - 1, hi);
      if q < lo { MulLess(n, q, lo); }
    }
  }

  /** The mean of pixels that all lie in a box [lo, hi] lies in that box. */
  lemma MeanBetween(ps: seq<Hsv>, lo: Hsv, hi: Hsv)
    requires |ps| > 0
    requires forall i :: 0 <= i < |ps| ==> Le(lo, ps[i]) && Le(ps[i], hi)
    ensures Le(lo, Mean(ps)) && Le(Mean(ps), hi)
  {
    SumBetween(ps, lo, hi);
    var t, n := Sum(ps), |ps|;
    QuotBetween(t.h, n, lo.h, hi.h);
    QuotBetween(t.s, n, lo.s, hi.s);
    QuotBetween(t.v, n, lo.v, hi.v);
  }

  /** A region of valid HSV pixels has a valid mean colour. */
  lemma MeanInBounds(ps: seq<Hsv>)
    requires |ps| > 0
    requires forall i :: 0 <= i < |ps| ==> InBounds(ps[i])
    ensures InBounds(Mean(ps))
  {
    MeanBetween(ps, Hsv(0, 0, 0), Hsv(HUE_MAX, SAT_VAL_MAX, SAT_VAL_MAX));
  }

  /** A region of one colour has exactly that colour as its mean, so its calibrated window is
      centred on it. */
  lemma MeanUniform(ps: seq<Hsv>, c: Hsv)
    requires |ps| > 0
    requires forall i :: 0 <= i < |ps| ==> ps[i] == c
    ensures Mean(ps) == c
  {
    MeanBetween(ps, c, c);
  }

  /** A frame already converted to HSV: a sequence of pixel rows. */
  type Image = seq<seq<Hsv>>

  /** A bounding rectangle of a contour found in `img`: non-empty and inside the image. */
  predicate Fits(r: Rect, img: Image) {
    0 <= r.x && 1 <= r.w && 0 <= r.y && 1 <= r.h && r.y + r.h <= |img| &&
    forall i :: r.y <= i < r.y + r.h ==> r.x + r.w <= |img[i]|
  }

  /** The columns x .. x + w of each row, row after row (numpy's reshape(-1, 3) order). */
  function Columns(rows: seq<seq<Hsv>>, x: nat, w: nat): (ps: seq<Hsv>)
    requires forall i :: 0 <= i < |rows| ==> x + w <= |rows[i]|
    ensures |ps| == |rows| * w
  {
    if rows == [] then []
    else rows[0][x..x + w] + Columns(rows[1..], x, w)
  }

  /** `frame[y:y+h, x:x+w]`, flattened to its pixels. */
  function Region(img: Image, r: Rect): (ps: seq<Hsv>)
    requires Fits(r, img)
    ensures |ps| == r.w * r.h > 0
  {
    Columns(img[r.y..r.y + r.h], r.x, r.w)
  }

  lemma {:induction false} ColumnsFrom(rows: seq<seq<Hsv>>, x: nat, w: nat, k: nat)
    requires forall i :: 0 <= i < |rows| ==> x + w <= |rows[i]|
    requires k < |Columns(rows, x, w)|
    ensures exists i, j :: 0 <= i < |rows| && x <= j < x + w && rows[i][j] == Columns(rows, x, w)[k]
  {
    if k < w {
      assert rows[0][x + k] == Columns(rows, x, w)[k];
    } else {
      ColumnsFrom(rows[1..], x, w, k - w);
      var i, j :| 0 <= i < |rows| - 1 && x <= j < x + w && rows[1..][i][j] == Columns(rows[1..], x, w)[k - w];
      assert rows[i + 1][j] == Columns(rows, x, w)[k];
    }
  }

  /** Row i, column j of the selected columns sits at row-major position i * w + j. */
  lemma {:induction false} ColumnsAt(rows: seq<seq<Hsv>>, x: nat, w: nat, i: nat, j: nat)
    requires forall k :: 0 <= k < |rows| ==> x + w <= |rows[k]|
    requires i < |rows| && j < w
    ensures i * w + j < |Columns(rows, x, w)|
    ensures Columns(rows, x, w)[i * w + j] == rows[i][x + j]
  {
    var head, tail := rows[0][x..x + w], Columns(rows[1..], x, w);
    assert Columns(rows, x, w) == head + tail;
    if i == 0 {
      assert i * w + j == j;
    } else {
      ColumnsAt(rows[1..], x, w, i - 1, j);
      var k := (i - 1) * w + j;
      assert k + w == i * w + j by {
        assert (i - 1) * w == i * w - w;
      }
      assert (head + tail)[k + w] == tail[k];
    }
  }

  /** Every pixel of the rectangle appears in the region, at its row-major position; with
      the length w * h this makes the region exactly the rectangle's pixels, each once. */
  lemma RegionAt(img: Image, r: Rect, i: nat, j: nat)
    requires Fits(r, img) && i < r.h && j < r.w
    ensures i * r.w + j < |Region(img, r)|
    ensures Region(img, r)[i * r.w + j] == img[r.y + i][r.x + j]
  {
    ColumnsAt(img[r.y..r.y + r.h], r.x, r.w, i, j);
  }

  /** Every pixel of the region is a pixel of the image inside the rectangle. */
  lemma RegionInside(img: Image, r: Rect, k: nat)
    requires Fits(r, img) && k < |Region(img, r)|
    ensures exists i, j :: r.y <= i < r.y + r.h && r.x <= j < r.x + r.w && img[i][j] == Region(img, r)[k]
  {
    var rows := img[r.y..r.y + r.h];
    ColumnsFrom(rows, r.x, r.w, k);
    var i, j :| 0 <= i < |rows| && r.x <= j < r.x + r.w && rows[i][j] == Columns(rows, r.x, r.w)[k];
    assert img[r.y + i][j] == Region(img, r)[k];
  }

  /** An image whose pixels are all valid HSV triples calibrates from a valid mean. */
  lemma RegionMeanInBounds(img: Image, r: Rect)
    requires Fits(r, img)
    requires forall i, j :: 0 <= i < |img| && 0 <= j < |img[i]| ==> InBounds(img[i][j])
    ensures InBounds(Mean(Region(img, r)))
  {
    var ps := Region(img, r);
    forall k | 0 <= k < |ps| ensures InBounds(ps[k]) {
      RegionInside(img, r, k);
    }
    MeanInBounds(ps);
  }
}
