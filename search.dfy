/** The two searches of the lock engine: the first candidate under the pointer, and the
    nearest candidate to the locked centre within the lock threshold. */
module Search {
  import opened Optional
  import opened Geometry

  /** The first rectangle, in list order, that contains p. */
  function FirstHit(blobs: seq<Rect>, p: Point): (k: Option<nat>)
    ensures k.Some? ==> k.value < |blobs|
  {
    if blobs == [] then None
    else if Contains(blobs[0], p) then Some(0)
    else match FirstHit(blobs[1..], p)
      case None => None
      case Some(k) => Some(k + 1)
  }

  lemma {:induction false} FirstHitCorrect(blobs: seq<Rect>, p: Point)
    ensures FirstHit(blobs, p).Some? ==>
              var k := FirstHit(blobs, p).value;
              k < |blobs| && Contains(blobs[k], p) &&
              forall j :: 0 <= j < k ==> !Contains(blobs[j], p)
    ensures FirstHit(blobs, p).None? <==> forall j :: 0 <= j < |blobs| ==> !Contains(blobs[j], p)
  {
    if blobs != [] && !Contains(blobs[0], p) {
      FirstHitCorrect(blobs[1..], p);
      if FirstHit(blobs[1..], p).None? {
        forall j | 0 <= j < |blobs| ensures !Contains(blobs[j], p) {
          if j > 0 { assert blobs[j] == blobs[1..][j - 1]; }
        }
      } else {
        var k := FirstHit(blobs[1..], p).value;
        forall j | 0 <= j < k + 1 ensures !Contains(blobs[j], p) {
          if j > 0 { assert blobs[j] == blobs[1..][j - 1]; }
        }
      }
    }
  }

  /** The for/break loop of the pointer handler: the index of the first candidate whose
      rectangle contains the pointer, or None. */
  method FindHit(blobs: seq<Rect>, p: Point) returns (hit: Option<nat>)
    ensures hit == FirstHit(blobs, p)
    ensures hit.Some? ==> hit.value < |blobs| && Contains(blobs[hit.value], p) &&
                          forall j :: 0 <= j < hit.value ==> !Contains(blobs[j], p)
    ensures hit.None? ==> forall j :: 0 <= j < |blobs| ==> !Contains(blobs[j], p)
  {
    FirstHitCorrect(blobs, p);
    for i := 0 to |blobs|
      invariant forall j :: 0 <= j < i ==> !Contains(blobs[j], p)
    {
      if Contains(blobs[i], p) {
        return Some(i);
      }
    }
    return None;
  }

  /** Squared distance from a candidate's centre to the locked centre. */
  function CentreDist(r: Rect, t: Point): nat {
    Dist2(Centre(r), t)
  }

  /** The scan of the maintenance loop, one candidate at a time: a candidate replaces the
      best so far only when it is strictly closer and strictly within the threshold, so the
      earliest of equally near candidates wins. */
  function Nearest(blobs: seq<Rect>, t: Point, threshold: nat): (k: Option<nat>)
    ensures k.Some? ==> k.value < |blobs|
  {
    if blobs == [] then None
    else
      var i := |blobs| - 1;
      var best := Nearest(blobs[..i], t, threshold);
      var d := CentreDist(blobs[i], t);
      if Within(d, threshold) && (best.None? || d < CentreDist(blobs[best.value], t)) then Some(i)
      else best
  }

  /** k is the earliest candidate of least distance among those strictly within the threshold. */
  predicate IsNearest(blobs: seq<Rect>, t: Point, threshold: nat, k: nat) {
    k < |blobs| && Within(CentreDist(blobs[k], t), threshold) &&
    (forall j :: 0 <= j < |blobs| && Within(CentreDist(blobs[j], t), threshold) ==>
       CentreDist(blobs[k], t) <= CentreDist(blobs[j], t)) &&
    (forall j :: 0 <= j < k && Within(CentreDist(blobs[j], t), threshold) ==>
       CentreDist(blobs[k], t) < CentreDist(blobs[j], t))
  }

  predicate NoneWithin(blobs: seq<Rect>, t: Point, threshold: nat) {
    forall j :: 0 <= j < |blobs| ==> !Within(CentreDist(blobs[j], t), threshold)
  }

  lemma {:induction false} NearestCorrect(blobs: seq<Rect>, t: Point, threshold: nat)
    ensures Nearest(blobs, t, threshold).Some? ==>
              IsNearest(blobs, t, threshold, Nearest(blobs, t, threshold).value)
    ensures Nearest(blobs, t, threshold).None? <==> NoneWithin(blobs, t, threshold)
  {
    if blobs != [] {
      var i := |blobs| - 1;
      var init := blobs[..i];
      NearestCorrect(init, t, threshold);
      forall j | 0 <= j < i ensures init[j] == blobs[j] { }
    }
  }

  /** A candidate whose centre is the locked centre is at distance 0: with a positive
      threshold the search succeeds and re-locks onto a candidate at that same centre. */
  lemma NearestStationary(blobs: seq<Rect>, t: Point, threshold: nat, j: nat)
    requires threshold > 0 && j < |blobs| && Centre(blobs[j]) == t
    ensures Nearest(blobs, t, threshold).Some?
    ensures Centre(blobs[Nearest(blobs, t, threshold).value]) == t
  {
    NearestCorrect(blobs, t, threshold);
    assert Within(CentreDist(blobs[j], t), threshold);
  }

  /** The argmin loop over the candidates (min_dist starts at infinity, which here is the
      absence of a best candidate). */
  method FindNearest(blobs: seq<Rect>, t: Point, threshold: nat) returns (k: Option<nat>)
    ensures k == Nearest(blobs, t, threshold)
    ensures k.Some? ==> IsNearest(blobs, t, threshold, k.value)
    ensures k.None? ==> NoneWithin(blobs, t, threshold)
  {
    k := None;
    var minDist: nat := 0;
    for i := 0 to |blobs|
      invariant k == Nearest(blobs[..i], t, threshold)
      invariant k.Some? ==> k.value < i && minDist == CentreDist(blobs[k.value], t)
    {
      var d := CentreDist(blobs[i], t);
      if (k.None? || d < minDist) && Within(d, threshold) {
        k := Some(i);
        minDist := d;
      }
      assert blobs[..i + 1][..i] == blobs[..i];
    }
    assert blobs[..|blobs|] == blobs;
    NearestCorrect(blobs, t, threshold);
  }
}
