/** The blob filter of the frame loop: contours larger than the minimum area, as their
    bounding rectangles, in the order the contour finder enumerates them. */
module Blobs {
  import opened Geometry

  /** What the contour finder reports for one external contour: its area (a float in the
      original, a real here) and its bounding rectangle. */
  datatype Contour = Contour(area: real, rect: Rect)

  /** Only contours strictly larger than this become candidates. */
  const MIN_AREA: real := 500.0

  predicate Large(c: Contour) {
    c.area > MIN_AREA
  }

  /** The candidates of one frame: each large contour's rectangle, in input order. */
  function Filtered(cs: seq<Contour>): seq<Rect> {
    if cs == [] then []
    else
      var last := cs[|cs| - 1];
      Filtered(cs[..|cs| - 1]) + (if Large(last) then [last.rect] else [])
  }

  /** The positions in `cs` of the large contours, in increasing order. */
  function Kept(cs: seq<Contour>): seq<nat> {
    if cs == [] then []
    else Kept(cs[..|cs| - 1]) + (if Large(cs[|cs| - 1]) then [|cs| - 1] else [])
  }

  /** The filter keeps exactly the large contours, in their original order: the k-th candidate
      is the rectangle of the k-th large contour. */
  lemma {:induction false} FilteredCorrect(cs: seq<Contour>)
    ensures |Filtered(cs)| == |Kept(cs)|
    ensures forall k :: 0 <= k < |Kept(cs)| ==>
              Kept(cs)[k] < |cs| && Filtered(cs)[k] == cs[Kept(cs)[k]].rect
    ensures forall k, l :: 0 <= k < l < |Kept(cs)| ==> Kept(cs)[k] < Kept(cs)[l]
    ensures forall i :: 0 <= i < |cs| ==> (Large(cs[i]) <==> i in Kept(cs))
  {
    if cs != [] {
      var init := cs[..|cs| - 1];
      FilteredCorrect(init);
      forall i | 0 <= i < |init| ensures init[i] == cs[i] { }
    }
  }

  /** Every candidate is the rectangle of some large contour. */
  lemma FilteredFrom(cs: seq<Contour>, k: nat)
    requires k < |Filtered(cs)|
    ensures exists i :: 0 <= i < |cs| && Large(cs[i]) && cs[i].rect == Filtered(cs)[k]
  {
    FilteredCorrect(cs);
    var i := Kept(cs)[k];
    assert Large(cs[i]);
  }

  /** The loop that appends the rectangle of every contour of area > 500 to the candidate list. */
  method FilterBlobs(contours: seq<Contour>) returns (blobs: seq<Rect>)
    ensures blobs == Filtered(contours)
  {
    blobs := [];
    for i := 0 to |contours|
      invariant blobs == Filtered(contours[..i])
    {
      var c := contours[i];
      if c.area > MIN_AREA {
        blobs := blobs + [c.rect];
      }
      assert contours[..i + 1][..i] == contours[..i];
    }
    assert contours[..|contours|] == contours;
  }
}
