/**
 * The accordion's selection controller: the open list, the manual-close
 * marker, the manual-selection pause flag and the viewport-centre scroll
 * rule of the component, as pure steps over a state record (the
 * specification) and as a class whose methods update that state in place.
 *
 * Timers are not clocks here: the 800 ms cooldown armed by a click and the
 * 150 ms settle timer armed by a scroll sample are "pending" flags, and their
 * expiry is an explicit event.
 */
module Accordion {
  import opened Opt
  import opened Geometry

  datatype Mode = Single | Multiple

  /** The props the behaviour reads. */
  datatype Config = Config(
    mode: Mode,
    collapsible: bool,
    scrollDetect: bool,
    threshold: real,
    scrollToCenter: bool,
    mobileOnly: bool,
    headerOffset: real)

  /** The defaults the component falls back to for absent props. */
  const Defaults := Config(Single, true, false, 0.4, true, true, 0.0)

  /** Viewports narrower than this many pixels count as mobile. */
  const MobileBreakpoint: int := 768

  /** The `defaultOpen` prop: absent, one id, or an array of ids. */
  datatype DefaultOpen = Absent | One(id: string) | Many(ids: seq<string>)

  /**
   * The initial open list. A missing prop and the empty string (both falsy)
   * open nothing; an array is taken as given, in any mode, without checking
   * its length, its ids or duplicates; any other string opens that one id.
   */
  function InitialOpenIds(d: DefaultOpen): (r: seq<string>)
    ensures r == [] <==> d == Absent || d == One("") || d == Many([])
    ensures d.Many? ==> r == d.ids
    ensures d.One? ==> forall x :: x in r <==> x == d.id && x != ""
    ensures d.One? && d.id != "" ==> r == [d.id]
  {
    match d
    case Absent => []
    case One(id) => if id == "" then [] else [id]
    case Many(ids) => ids
  }

  /** `checkMobile`: a narrow viewport or a touch-capable window. */
  predicate IsMobile(innerWidth: int, hasTouch: bool)
  {
    innerWidth < MobileBreakpoint || hasTouch
  }

  /** `isScrollDetectionActive`. */
  predicate DetectionActive(cfg: Config, isMobile: bool)
  {
    cfg.scrollDetect && (!cfg.mobileOnly || isMobile)
  }

  /** Everything the component keeps between events. */
  datatype State = State(
    openIds: seq<string>,
    manuallyClosedId: Option<string>,
    manuallySelected: bool,
    isMobile: bool,
    cooldownPending: bool,
    settlePending: bool)

  /**
   * One event's effect: the new state, the list handed to `onValueChange`
   * (if it was called) and the item index scrolled into view (if one was).
   */
  datatype Step = Step(next: State, emitted: Option<seq<string>>, scrollTo: Option<nat>)

  /** The state right after mounting (the mobile check runs on mount). */
  function Mount(d: DefaultOpen, innerWidth: int, hasTouch: bool): State
  {
    State(InitialOpenIds(d), None, false, IsMobile(innerWidth, hasTouch), false, false)
  }

  /** `openIds.filter(x => x !== id)`: every copy of `id` goes, the rest keep their order. */
  function Without(ids: seq<string>, id: string): (r: seq<string>)
    ensures |r| <= |ids|
    ensures forall x :: x in r <==> x in ids && x != id
  {
    if |ids| == 0 then []
    else (if ids[0] == id then [] else [ids[0]]) + Without(ids[1..], id)
  }

  /** `handleToggle(item, index)`: a click on the header of item `id` at position `index`. */
  function Toggle(cfg: Config, s: State, id: string, index: nat): Step
  {
    var active := DetectionActive(cfg, s.isMobile);
    var isOpen := id in s.openIds;
    var paused := if active then s.(manuallySelected := true, cooldownPending := true) else s;
    var scrollTo := if active && cfg.scrollToCenter && !isOpen then Some(index) else None;
    if isOpen then
      if cfg.collapsible || |s.openIds| > 1 then
        var newIds := Without(s.openIds, id);
        var closed := if active then Some(id) else s.manuallyClosedId;
        Step(paused.(openIds := newIds, manuallyClosedId := closed), Some(newIds), scrollTo)
      else
        Step(paused, None, scrollTo)
    else
      var newIds := if cfg.mode == Single then [id] else s.openIds + [id];
      Step(paused.(openIds := newIds, manuallyClosedId := None), Some(newIds), scrollTo)
  }

  /**
   * The rendering layer nulls the ref of an item that is no longer rendered,
   * so no element is measured at an index beyond the item list.
   */
  predicate RefsMatchItems(ids: seq<string>, rects: seq<Option<Rect>>)
  {
    forall i :: |ids| <= i < |rects| ==> rects[i].None?
  }

  /** Viewport height below the fixed header. */
  function EffectiveHeight(cfg: Config, innerHeight: real): real
  {
    innerHeight - cfg.headerOffset
  }

  /** The centre of the viewport below the fixed header. */
  function ViewportCenter(cfg: Config, innerHeight: real): real
  {
    cfg.headerOffset + EffectiveHeight(cfg, innerHeight) / 2.0
  }

  /**
   * The card a scroll sample would activate: the first measured card whose
   * centre is nearest the viewport centre, provided it is nearer than
   * `threshold` times the effective viewport height; otherwise none.
   */
  function Candidate(cfg: Config, ids: seq<string>, rects: seq<Option<Rect>>, innerHeight: real): (k: Option<nat>)
    requires RefsMatchItems(ids, rects)
    ensures k.Some? ==> k.value < |ids|
  {
    NearestIsFirstNearest(rects, ViewportCenter(cfg, innerHeight));
    match Nearest(rects, ViewportCenter(cfg, innerHeight))
    case None => None
    case Some(p) =>
      if p.dist < EffectiveHeight(cfg, innerHeight) * cfg.threshold then Some(p.index) else None
  }

  /**
   * The candidate is the first measured card nearest the viewport centre when
   * that card is nearer than `threshold` times the effective height, and there
   * is none exactly when no measured card is that near.
   */
  lemma CandidateIsNearestWithinThreshold(cfg: Config, ids: seq<string>, rects: seq<Option<Rect>>, innerHeight: real)
    requires RefsMatchItems(ids, rects)
    ensures var k := Candidate(cfg, ids, rects, innerHeight);
            var c := ViewportCenter(cfg, innerHeight);
            var limit := EffectiveHeight(cfg, innerHeight) * cfg.threshold;
            && (k.Some? ==>
                  && k.value < |rects| && rects[k.value].Some?
                  && IsFirstNearest(rects, c, Some(Pick(k.value, Dist(rects[k.value].value, c))))
                  && Dist(rects[k.value].value, c) < limit)
            && (k.None? ==>
                  forall i :: 0 <= i < |rects| && rects[i].Some? ==> Dist(rects[i].value, c) >= limit)
  {
    NearestIsFirstNearest(rects, ViewportCenter(cfg, innerHeight));
  }

  /**
   * One scroll event (`handleScroll`). Nothing listens while detection is
   * inactive. Otherwise the settle timer is re-armed; a paused controller
   * stops there; else the candidate clears a marker on a different card,
   * and opens alone unless it is the marked card or already first in the list.
   */
  function ScrollSample(cfg: Config, s: State, ids: seq<string>, rects: seq<Option<Rect>>, innerHeight: real): Step
    requires RefsMatchItems(ids, rects)
  {
    if !DetectionActive(cfg, s.isMobile) then Step(s, None, None)
    else
      var armed := s.(settlePending := true);
      if s.manuallySelected then Step(armed, None, None)
      else
        match Candidate(cfg, ids, rects, innerHeight)
        case None => Step(armed, None, None)
        case Some(k) =>
          var closestId := ids[k];
          var closed :=
            if s.manuallyClosedId.Some? && Some(closestId) != s.manuallyClosedId then None
            else s.manuallyClosedId;
          if Some(closestId) != s.manuallyClosedId && (|s.openIds| == 0 || closestId != s.openIds[0]) then
            Step(armed.(manuallyClosedId := closed, openIds := [closestId]), Some([closestId]), None)
          else
            Step(armed.(manuallyClosedId := closed), None, None)
  }

  /** The cooldown timer fires: the pause ends. */
  function ExpireCooldown(s: State): State
  {
    if s.cooldownPending then s.(manuallySelected := false, cooldownPending := false) else s
  }

  /** The settle timer fires: the pause ends. */
  function ExpireSettle(s: State): State
  {
    if s.settlePending then s.(manuallySelected := false, settlePending := false) else s
  }

  /**
   * A resize re-runs the mobile check; when detection turns off, the scroll
   * listener is removed and its pending settle timer cancelled.
   */
  function CheckMobile(cfg: Config, s: State, innerWidth: int, hasTouch: bool): State
  {
    var mobile := IsMobile(innerWidth, hasTouch);
    if DetectionActive(cfg, mobile) then s.(isMobile := mobile)
    else s.(isMobile := mobile, settlePending := false)
  }

  /**
   * The `forEach` over the item refs in `handleScroll`: the running closest
   * index (-1 for none yet, the distance then being "infinite") and distance.
   */
  method ClosestCard(rects: seq<Option<Rect>>, center: real) returns (closest: Option<Pick>)
    ensures closest == Nearest(rects, center)
  {
    var closestIndex := -1;
    var closestDistance := 0.0;
    var i := 0;
    while i < |rects|
      invariant 0 <= i <= |rects|
      invariant -1 <= closestIndex < i
      invariant closestIndex < 0 ==> Nearest(rects[..i], center) == None
      invariant closestIndex >= 0 ==> Nearest(rects[..i], center) == Some(Pick(closestIndex, closestDistance))
    {
      assert rects[..i + 1][..i] == rects[..i];
      if rects[i].Some? {
        var distance := Dist(rects[i].value, center);
        if closestIndex < 0 || distance < closestDistance {
          closestDistance := distance;
          closestIndex := i;
        }
      }
      i := i + 1;
    }
    assert rects[..i] == rects;
    closest := if closestIndex < 0 then None else Some(Pick(closestIndex, closestDistance));
  }

  /** The measuring half of `handleScroll`: the candidate card, if one is near enough. */
  method ScrollCandidate(cfg: Config, ids: seq<string>, rects: seq<Option<Rect>>, innerHeight: real)
    returns (candidate: Option<nat>)
    requires RefsMatchItems(ids, rects)
    ensures candidate == Candidate(cfg, ids, rects, innerHeight)
    ensures candidate.Some? ==> candidate.value < |ids|
  {
    var effectiveHeight := innerHeight - cfg.headerOffset;
    var center := cfg.headerOffset + effectiveHeight / 2.0;
    var closest := ClosestCard(rects, center);
    candidate := if closest.Some? && closest.value.dist < effectiveHeight * cfg.threshold
                 then Some(closest.value.index) else None;
  }

  /** The mounted component: its state hooks, and what it has handed to the outside. */
  class Controller {
    const cfg: Config
    var openIds: seq<string>
    var manuallyClosedId: Option<string>
    var manuallySelected: bool
    var isMobile: bool
    var cooldownPending: bool
    var settlePending: bool
    /** Every list passed to `onValueChange`, oldest first. */
    var emitted: seq<seq<string>>
    /** Every item index scrolled into view, oldest first. */
    var scrollRequests: seq<nat>

    function Snapshot(): State
      reads this
    {
      State(openIds, manuallyClosedId, manuallySelected, isMobile, cooldownPending, settlePending)
    }

    constructor (cfg: Config, defaultOpen: DefaultOpen, innerWidth: int, hasTouch: bool)
      ensures this.cfg == cfg
      ensures Snapshot() == Mount(defaultOpen, innerWidth, hasTouch)
      ensures emitted == [] && scrollRequests == []
    {
      this.cfg := cfg;
      openIds := InitialOpenIds(defaultOpen);
      manuallyClosedId := None;
      manuallySelected := false;
      isMobile := IsMobile(innerWidth, hasTouch);
      cooldownPending, settlePending := false, false;
      emitted, scrollRequests := [], [];
    }

    method HandleToggle(id: string, index: nat)
      modifies this
      ensures Snapshot() == Toggle(cfg, old(Snapshot()), id, index).next
      ensures emitted == old(emitted) + Log(Toggle(cfg, old(Snapshot()), id, index).emitted)
      ensures scrollRequests == old(scrollRequests) + Log(Toggle(cfg, old(Snapshot()), id, index).scrollTo)
    {
      var isOpen := id in openIds;
      var active := DetectionActive(cfg, isMobile);
      if active {
        manuallySelected := true;
        if cfg.scrollToCenter && !isOpen {
          scrollRequests := scrollRequests + [index];
        }
        cooldownPending := true;
      }
      if isOpen {
        if cfg.collapsible || |openIds| > 1 {
          if active {
            manuallyClosedId := Some(id);
          }
          var newIds := Without(openIds, id);
          openIds := newIds;
          emitted := emitted + [newIds];
        }
      } else {
        manuallyClosedId := None;
        if cfg.mode == Single {
          openIds := [id];
          emitted := emitted + [[id]];
        } else {
          var newIds := openIds + [id];
          openIds := newIds;
          emitted := emitted + [newIds];
        }
      }
    }

    method HandleScroll(ids: seq<string>, rects: seq<Option<Rect>>, innerHeight: real)
      requires RefsMatchItems(ids, rects)
      modifies this
      ensures Snapshot() == ScrollSample(cfg, old(Snapshot()), ids, rects, innerHeight).next
      ensures emitted == old(emitted) + Log(ScrollSample(cfg, old(Snapshot()), ids, rects, innerHeight).emitted)
      ensures scrollRequests == old(scrollRequests)
    {
      if !DetectionActive(cfg, isMobile) {
        return;
      }
      settlePending := true;
      if manuallySelected {
        return;
      }
      var candidate := ScrollCandidate(cfg, ids, rects, innerHeight);
      if candidate.Some? {
        var closestId := ids[candidate.value];
        var wasClosed := manuallyClosedId;
        if manuallyClosedId.Some? && Some(closestId) != manuallyClosedId {
          manuallyClosedId := None;
        }
        if Some(closestId) != wasClosed && (|openIds| == 0 || closestId != openIds[0]) {
          openIds := [closestId];
          emitted := emitted + [[closestId]];
        }
      }
    }

    method CooldownExpired()
      modifies this
      ensures Snapshot() == ExpireCooldown(old(Snapshot()))
      ensures emitted == old(emitted) && scrollRequests == old(scrollRequests)
    {
      if cooldownPending {
        manuallySelected := false;
        cooldownPending := false;
      }
    }

    method SettleExpired()
      modifies this
      ensures Snapshot() == ExpireSettle(old(Snapshot()))
      ensures emitted == old(emitted) && scrollRequests == old(scrollRequests)
    {
      if settlePending {
        manuallySelected := false;
        settlePending := false;
      }
    }

    method Resize(innerWidth: int, hasTouch: bool)
      modifies this
      ensures Snapshot() == CheckMobile(cfg, old(Snapshot()), innerWidth, hasTouch)
      ensures emitted == old(emitted) && scrollRequests == old(scrollRequests)
    {
      isMobile := innerWidth < MobileBreakpoint || hasTouch;
      if !DetectionActive(cfg, isMobile) {
        settlePending := false;
      }
    }
  }
}
