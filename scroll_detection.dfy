/**
 * The standalone scroll-detection hook and `useManualClose`: the engine that
 * picks the visible item nearest the viewport centre, with relative
 * hysteresis against the active item, a manual-interaction pause and a
 * manually-closed index it will not reactivate. The accordion component does
 * not use it; it is a separate engine.
 */
module ScrollDetection {
  import opened Opt
  import opened Geometry

  /** The hook's inputs that shape its behaviour. */
  datatype Config = Config(enabled: bool, hysteresis: real, scrollToCenter: bool, mobileOnly: bool)

  /** Viewports narrower than this many pixels count as mobile (no touch probe here). */
  const MobileBreakpoint: int := 768

  predicate IsMobile(innerWidth: int)
  {
    innerWidth < MobileBreakpoint
  }

  /** `isScrollDetectionActive`. */
  predicate DetectionActive(cfg: Config, isMobile: bool)
  {
    cfg.enabled && (!cfg.mobileOnly || isMobile)
  }

  /** The hook's state that a scroll sample reads. */
  datatype HookState = HookState(isManuallySelected: bool, manuallyClosedIndex: Option<nat>, isMobile: bool)

  /** `refs[i]`: a missing entry or one past the end reads as no element. */
  function RefAt(refs: seq<Option<Rect>>, i: int): Option<Rect>
  {
    if 0 <= i < |refs| then refs[i] else None
  }

  /** At least partly inside the viewport: `bottom > 0` and `top < viewportHeight`. */
  predicate Visible(r: Rect, viewportHeight: real)
  {
    r.Bottom() > 0.0 && r.top < viewportHeight
  }

  /** The first `itemCount` refs, with every element that is missing or off screen dropped. */
  function Eligible(refs: seq<Option<Rect>>, itemCount: nat, viewportHeight: real): seq<Option<Rect>>
  {
    seq(itemCount, i => if RefAt(refs, i).Some? && Visible(RefAt(refs, i).value, viewportHeight) then RefAt(refs, i) else None)
  }

  /**
   * Exactly the indices below `itemCount` whose ref is set and whose element
   * is at least partly on screen take part, with their own rectangles.
   */
  lemma EligibleItems(refs: seq<Option<Rect>>, itemCount: nat, viewportHeight: real)
    ensures var es := Eligible(refs, itemCount, viewportHeight);
            && |es| == itemCount
            && forall i :: 0 <= i < itemCount ==>
                 (es[i].Some? <==> RefAt(refs, i).Some? && Visible(RefAt(refs, i).value, viewportHeight))
                 && (es[i].Some? ==> es[i] == RefAt(refs, i))
  {
  }

  /** The outcome of one scroll sample: the index handed to `onActiveChange`, if any, and the new marker. */
  datatype Decision = Decision(activate: Option<nat>, closed: Option<nat>)

  /**
   * The measuring half of `handleScroll`: the first visible item nearest half
   * the viewport height, dropped when it is the active item, or when the
   * active item is measured and the candidate is not closer than
   * `1 - hysteresis` times the active item's distance.
   */
  function GatedCandidate(cfg: Config, refs: seq<Option<Rect>>, itemCount: nat,
                          viewportHeight: real, activeIndex: Option<nat>): Option<nat>
  {
    var center := viewportHeight / 2.0;
    match Nearest(Eligible(refs, itemCount, viewportHeight), center)
    case None => None
    case Some(p) =>
      if Some(p.index) == activeIndex then None
      else if && activeIndex.Some? && RefAt(refs, activeIndex.value).Some?
              && p.dist >= Dist(RefAt(refs, activeIndex.value).value, center) * (1.0 - cfg.hysteresis)
      then None
      else Some(p.index)
  }

  /**
   * One scroll event (`handleScroll`): no listener while inactive, nothing
   * while paused; past the gate the marker is cleared unless it is on the
   * candidate, and the candidate is activated unless it is the marked index.
   */
  function Decide(cfg: Config, s: HookState, refs: seq<Option<Rect>>, itemCount: nat,
                  viewportHeight: real, activeIndex: Option<nat>): Decision
  {
    if !DetectionActive(cfg, s.isMobile) || s.isManuallySelected then Decision(None, s.manuallyClosedIndex)
    else
      match GatedCandidate(cfg, refs, itemCount, viewportHeight, activeIndex)
      case None => Decision(None, s.manuallyClosedIndex)
      case Some(c) =>
        var closed :=
          if s.manuallyClosedIndex.Some? && Some(c) != s.manuallyClosedIndex then None
          else s.manuallyClosedIndex;
        Decision(if Some(c) != s.manuallyClosedIndex then Some(c) else None, closed)
  }

  /** The hysteresis gate passes: no measured active item, or the candidate is significantly closer. */
  predicate SignificantlyCloser(cfg: Config, refs: seq<Option<Rect>>, candidateDist: real,
                                activeIndex: Option<nat>, center: real)
  {
    activeIndex.Some? && RefAt(refs, activeIndex.value).Some? ==>
      candidateDist < Dist(RefAt(refs, activeIndex.value).value, center) * (1.0 - cfg.hysteresis)
  }

  /**
   * The `for` loop of `handleScroll`: `closestIndex` starts at null and
   * `closestDistance` at infinity; only items below `itemCount` whose ref is
   * set and which are on screen take part.
   */
  method VisibleCandidate(refs: seq<Option<Rect>>, itemCount: nat, viewportHeight: real)
    returns (closest: Option<Pick>)
    ensures closest == Nearest(Eligible(refs, itemCount, viewportHeight), viewportHeight / 2.0)
  {
    ghost var es := Eligible(refs, itemCount, viewportHeight);
    EligibleItems(refs, itemCount, viewportHeight);
    var center := viewportHeight / 2.0;
    var closestIndex: Option<nat> := None;
    var closestDistance := 0.0;
    for i := 0 to itemCount
      invariant closestIndex.Some? ==> closestIndex.value < i
      invariant Nearest(es[..i], center) ==
                if closestIndex.None? then None else Some(Pick(closestIndex.value, closestDistance))
    {
      assert es[..i + 1][..i] == es[..i];
      var ref := if i < |refs| then refs[i] else None;
      if ref.Some? {
        var rect := ref.value;
        var distance := Dist(rect, center);
        if rect.Bottom() > 0.0 && rect.top < viewportHeight {
          if closestIndex.None? || distance < closestDistance {
            closestDistance := distance;
            closestIndex := Some(i);
          }
        }
      }
    }
    assert es[..itemCount] == es;
    closest := if closestIndex.None? then None else Some(Pick(closestIndex.value, closestDistance));
  }

  /** The scan and the hysteresis comparison of `handleScroll`. */
  method GateCandidate(cfg: Config, refs: seq<Option<Rect>>, itemCount: nat,
                       viewportHeight: real, activeIndex: Option<nat>) returns (candidate: Option<nat>)
    ensures candidate == GatedCandidate(cfg, refs, itemCount, viewportHeight, activeIndex)
  {
    var center := viewportHeight / 2.0;
    var closest := VisibleCandidate(refs, itemCount, viewportHeight);
    candidate := None;
    if closest.Some? && Some(closest.value.index) != activeIndex {
      var current := if activeIndex.Some? then RefAt(refs, activeIndex.value) else None;
      if current.Some? && closest.value.dist >= Dist(current.value, center) * (1.0 - cfg.hysteresis) {
        return;
      }
      candidate := Some(closest.value.index);
    }
  }

  // ---- What a sample promises -------------------------------------------------

  /** Inactive or paused, a sample makes no callback and leaves the marker alone. */
  lemma DecideWhilePaused(cfg: Config, s: HookState, refs: seq<Option<Rect>>, itemCount: nat,
                          vh: real, activeIndex: Option<nat>)
    requires !DetectionActive(cfg, s.isMobile) || s.isManuallySelected
    ensures Decide(cfg, s, refs, itemCount, vh, activeIndex) == Decision(None, s.manuallyClosedIndex)
  {
  }

  /**
   * A callback is made at most once per sample, with an index below
   * `itemCount` whose element is on screen and is the first nearest the
   * centre among the eligible ones; never with the active index, never with
   * the manually closed index, and only when the hysteresis gate passes.
   */
  lemma {:induction false} DecideActivation(cfg: Config, s: HookState, refs: seq<Option<Rect>>, itemCount: nat,
                                            vh: real, activeIndex: Option<nat>)
    ensures var d := Decide(cfg, s, refs, itemCount, vh, activeIndex);
            d.activate.Some? ==>
              var c := d.activate.value;
              && DetectionActive(cfg, s.isMobile) && !s.isManuallySelected
              && c < itemCount
              && RefAt(refs, c).Some? && Visible(RefAt(refs, c).value, vh)
              && IsFirstNearest(Eligible(refs, itemCount, vh), vh / 2.0,
                                Some(Pick(c, Dist(RefAt(refs, c).value, vh / 2.0))))
              && Some(c) != activeIndex
              && Some(c) != s.manuallyClosedIndex
              && SignificantlyCloser(cfg, refs, Dist(RefAt(refs, c).value, vh / 2.0), activeIndex, vh / 2.0)
  {
    EligibleItems(refs, itemCount, vh);
    NearestIsFirstNearest(Eligible(refs, itemCount, vh), vh / 2.0);
  }

  /**
   * The converse of `DecideActivation`: when detection runs and is not paused,
   * a visible first-nearest index that is not active and passes the hysteresis
   * gate is passed to the callback unless it is the marked index; a marker on
   * another index is reset, a marker on this one is kept.
   */
  lemma DecideActivates(cfg: Config, s: HookState, refs: seq<Option<Rect>>, itemCount: nat,
                        vh: real, activeIndex: Option<nat>, c: nat)
    requires DetectionActive(cfg, s.isMobile) && !s.isManuallySelected
    requires c < itemCount && RefAt(refs, c).Some? && Visible(RefAt(refs, c).value, vh)
    requires IsFirstNearest(Eligible(refs, itemCount, vh), vh / 2.0,
                            Some(Pick(c, Dist(RefAt(refs, c).value, vh / 2.0))))
    requires Some(c) != activeIndex
    requires SignificantlyCloser(cfg, refs, Dist(RefAt(refs, c).value, vh / 2.0), activeIndex, vh / 2.0)
    ensures var d := Decide(cfg, s, refs, itemCount, vh, activeIndex);
            && d.activate == (if Some(c) != s.manuallyClosedIndex then Some(c) else None)
            && d.closed == (if s.manuallyClosedIndex.Some? && Some(c) != s.manuallyClosedIndex
                            then None else s.manuallyClosedIndex)
  {
    var p := Pick(c, Dist(RefAt(refs, c).value, vh / 2.0));
    NearestUnique(Eligible(refs, itemCount, vh), vh / 2.0, Some(p));
    assert GatedCandidate(cfg, refs, itemCount, vh, activeIndex) == Some(c);
  }

  /** With no item on screen there is no candidate: no callback, the marker stays. */
  lemma {:induction false} DecideNothingVisible(cfg: Config, s: HookState, refs: seq<Option<Rect>>, itemCount: nat,
                                                vh: real, activeIndex: Option<nat>)
    requires forall i :: 0 <= i < itemCount && RefAt(refs, i).Some? ==> !Visible(RefAt(refs, i).value, vh)
    ensures Decide(cfg, s, refs, itemCount, vh, activeIndex) == Decision(None, s.manuallyClosedIndex)
  {
    EligibleItems(refs, itemCount, vh);
    NearestIsFirstNearest(Eligible(refs, itemCount, vh), vh / 2.0);
  }

  /**
   * Hysteresis: inside the band (the candidate is not closer than `1 - hysteresis`
   * times the measured active item's distance) the active item is kept and the
   * marker is untouched.
   */
  lemma DecideKeepsActiveInsideBand(cfg: Config, s: HookState, refs: seq<Option<Rect>>, itemCount: nat,
                                    vh: real, a: nat)
    requires RefAt(refs, a).Some?
    requires var p := Nearest(Eligible(refs, itemCount, vh), vh / 2.0);
             p.Some? && p.value.dist >= Dist(RefAt(refs, a).value, vh / 2.0) * (1.0 - cfg.hysteresis)
    ensures Decide(cfg, s, refs, itemCount, vh, Some(a)) == Decision(None, s.manuallyClosedIndex)
  {
  }

  /**
   * The marker is reset by a sample only when the hysteresis gate passes for a
   * candidate other than the active item and other than the marked index.
   */
  lemma {:induction false} DecideResetsMarker(cfg: Config, s: HookState, refs: seq<Option<Rect>>, itemCount: nat,
                                              vh: real, activeIndex: Option<nat>)
    ensures var d := Decide(cfg, s, refs, itemCount, vh, activeIndex);
            var p := Nearest(Eligible(refs, itemCount, vh), vh / 2.0);
            && (d.closed == s.manuallyClosedIndex || d.closed.None?)
            && (d.closed != s.manuallyClosedIndex ==>
                  && DetectionActive(cfg, s.isMobile) && !s.isManuallySelected
                  && p.Some? && Some(p.value.index) != activeIndex
                  && Some(p.value.index) != s.manuallyClosedIndex
                  && SignificantlyCloser(cfg, refs, p.value.dist, activeIndex, vh / 2.0)
                  && d.activate == Some(p.value.index))
  {
  }

  /**
   * Samples are idempotent once the candidate is active: after a callback with
   * `c`, a repeated sample with the same geometry, `c` active and the new
   * marker makes no callback and keeps the marker.
   */
  lemma DecideIdempotent(cfg: Config, s: HookState, refs: seq<Option<Rect>>, itemCount: nat,
                         vh: real, activeIndex: Option<nat>)
    ensures var d := Decide(cfg, s, refs, itemCount, vh, activeIndex);
            d.activate.Some? ==>
              Decide(cfg, s.(manuallyClosedIndex := d.closed), refs, itemCount, vh, d.activate)
                == Decision(None, d.closed)
  {
  }

  // ---- The hook's state ---------------------------------------------------------

  /** The hook as mounted: its state, and the callbacks and scrolls it has made. */
  class ScrollDetector {
    const cfg: Config
    var isManuallySelected: bool
    var manuallyClosedIndex: Option<nat>
    var isMobile: bool
    var cooldownPending: bool
    /** Every index passed to `onActiveChange`, oldest first. */
    var activeChanges: seq<nat>
    /** Every index scrolled into view, oldest first. */
    var scrollRequests: seq<nat>

    function Snapshot(): HookState
      reads this
    {
      HookState(isManuallySelected, manuallyClosedIndex, isMobile)
    }

    constructor (cfg: Config, innerWidth: int)
      ensures this.cfg == cfg
      ensures Snapshot() == HookState(false, None, IsMobile(innerWidth))
      ensures !cooldownPending && activeChanges == [] && scrollRequests == []
    {
      this.cfg := cfg;
      isManuallySelected := false;
      manuallyClosedIndex := None;
      isMobile := innerWidth < MobileBreakpoint;
      cooldownPending := false;
      activeChanges, scrollRequests := [], [];
    }

    /** `checkMobile` on resize. */
    method Resize(innerWidth: int)
      modifies this
      ensures isMobile == IsMobile(innerWidth)
      ensures isManuallySelected == old(isManuallySelected) && manuallyClosedIndex == old(manuallyClosedIndex)
      ensures cooldownPending == old(cooldownPending)
      ensures activeChanges == old(activeChanges) && scrollRequests == old(scrollRequests)
    {
      isMobile := innerWidth < MobileBreakpoint;
    }

    /**
     * `handleManualInteraction(index)`: a no-op while detection is inactive;
     * otherwise pauses detection, (re)arms the 800 ms timer and, when
     * configured and the item's element exists, scrolls it to the centre.
     */
    method HandleManualInteraction(index: nat, elementMounted: bool)
      modifies this
      ensures !DetectionActive(cfg, old(isMobile)) ==> unchanged(this)
      ensures DetectionActive(cfg, old(isMobile)) ==>
        && isManuallySelected && cooldownPending
        && manuallyClosedIndex == old(manuallyClosedIndex) && isMobile == old(isMobile)
        && activeChanges == old(activeChanges)
        && scrollRequests == old(scrollRequests) + (if cfg.scrollToCenter && elementMounted then [index] else [])
    {
      if !DetectionActive(cfg, isMobile) {
        return;
      }
      isManuallySelected := true;
      if cfg.scrollToCenter && elementMounted {
        scrollRequests := scrollRequests + [index];
      }
      cooldownPending := true;
    }

    /** The 800 ms timer fires: detection resumes. */
    method CooldownExpired()
      modifies this
      ensures old(cooldownPending) ==> !isManuallySelected && !cooldownPending
      ensures !old(cooldownPending) ==> isManuallySelected == old(isManuallySelected) && !cooldownPending
      ensures manuallyClosedIndex == old(manuallyClosedIndex) && isMobile == old(isMobile)
      ensures activeChanges == old(activeChanges) && scrollRequests == old(scrollRequests)
    {
      if cooldownPending {
        isManuallySelected := false;
        cooldownPending := false;
      }
    }

    method MarkAsManuallyClosed(index: nat)
      modifies this`manuallyClosedIndex
      ensures manuallyClosedIndex == Some(index)
    {
      manuallyClosedIndex := Some(index);
    }

    method ClearManuallyClosed()
      modifies this`manuallyClosedIndex
      ensures manuallyClosedIndex == None
    {
      manuallyClosedIndex := None;
    }

    /** One scroll event, with the viewport height and the caller's active index as inputs. */
    method HandleScroll(refs: seq<Option<Rect>>, itemCount: nat, viewportHeight: real, activeIndex: Option<nat>)
      returns (change: Option<nat>)
      modifies this
      ensures change == Decide(cfg, old(Snapshot()), refs, itemCount, viewportHeight, activeIndex).activate
      ensures manuallyClosedIndex == Decide(cfg, old(Snapshot()), refs, itemCount, viewportHeight, activeIndex).closed
      ensures isManuallySelected == old(isManuallySelected) && isMobile == old(isMobile)
      ensures cooldownPending == old(cooldownPending) && scrollRequests == old(scrollRequests)
      ensures activeChanges == old(activeChanges) + Log(change)
    {
      change := None;
      if !DetectionActive(cfg, isMobile) || isManuallySelected {
        return;
      }
      var candidate := GateCandidate(cfg, refs, itemCount, viewportHeight, activeIndex);
      if candidate.Some? {
        var wasClosed := manuallyClosedIndex;
        if manuallyClosedIndex.Some? && candidate != manuallyClosedIndex {
          manuallyClosedIndex := None;
        }
        if candidate != wasClosed {
          change := candidate;
          activeChanges := activeChanges + [candidate.value];
        }
      }
    }
  }

  /** `useManualClose`: a bare manually-closed index with a setter and a reset. */
  class ManualClose {
    var manuallyClosedIndex: Option<nat>

    constructor ()
      ensures manuallyClosedIndex == None
    {
      manuallyClosedIndex := None;
    }

    method SetManuallyClosed(index: Option<nat>)
      modifies this
      ensures manuallyClosedIndex == index
    {
      manuallyClosedIndex := index;
    }

    method ClearManuallyClosed()
      modifies this
      ensures manuallyClosedIndex == None
    {
      manuallyClosedIndex := None;
    }
  }
}
