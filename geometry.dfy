/**
 * Item geometry as the scroll engines read it from `getBoundingClientRect`,
 * with exact real arithmetic, and the "closest to the viewport centre" choice
 * both engines make.
 */
module Geometry {
  import opened Opt

  /** The vertical extent of an item's element in viewport coordinates. */
  datatype Rect = Rect(top: real, height: real)
  {
    function Bottom(): real { top + height }
    function Middle(): real { top + height / 2.0 }
  }

  function Abs(x: real): (r: real)
    ensures r >= 0.0 && (r == x || r == -x)
  {
    if x < 0.0 then -x else x
  }

  /** Distance from an item's vertical centre to the line `center`. */
  function Dist(r: Rect, center: real): real
  {
    Abs(r.Middle() - center)
  }

  /** A candidate: an index and its distance to the centre. */
  datatype Pick = Pick(index: nat, dist: real)

  /**
   * `p` is what a left-to-right scan with a strict `<` produces over `rs`
   * (entries that are `None` are unmounted elements and are skipped):
   * `None` exactly when no element is present, otherwise the FIRST index
   * whose distance is minimal.
   */
  predicate IsFirstNearest(rs: seq<Option<Rect>>, center: real, p: Option<Pick>)
  {
    match p
    case None => forall i :: 0 <= i < |rs| ==> rs[i].None?
    case Some(pk) =>
      && pk.index < |rs|
      && rs[pk.index].Some?
      && pk.dist == Dist(rs[pk.index].value, center)
      && (forall i :: 0 <= i < |rs| && rs[i].Some? ==> pk.dist <= Dist(rs[i].value, center))
      && (forall i :: 0 <= i < pk.index && rs[i].Some? ==> pk.dist < Dist(rs[i].value, center))
  }

  /**
   * The scan itself, one element at a time from the left: the last element
   * replaces the best of the prefix only when strictly closer.
   */
  function Nearest(rs: seq<Option<Rect>>, center: real): Option<Pick>
  {
    if |rs| == 0 then None
    else
      var prev := Nearest(rs[..|rs| - 1], center);
      match rs[|rs| - 1]
      case None => prev
      case Some(r) =>
        if prev.None? || Dist(r, center) < prev.value.dist then Some(Pick(|rs| - 1, Dist(r, center)))
        else prev
  }

  /** The scan finds the first element nearest the centre, and none only when nothing is measured. */
  lemma {:induction false} NearestIsFirstNearest(rs: seq<Option<Rect>>, center: real)
    ensures IsFirstNearest(rs, center, Nearest(rs, center))
  {
    if |rs| > 0 {
      var prefix := rs[..|rs| - 1];
      NearestIsFirstNearest(prefix, center);
      assert forall i :: 0 <= i < |rs| - 1 ==> rs[i] == prefix[i];
    }
  }

  /** The first nearest element is unique: the scan's answer is the only one. */
  lemma NearestUnique(rs: seq<Option<Rect>>, center: real, p: Option<Pick>)
    requires IsFirstNearest(rs, center, p)
    ensures p == Nearest(rs, center)
  {
    NearestIsFirstNearest(rs, center);
  }
}
