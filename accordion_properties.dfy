/**
 * What the selection controller promises, over single events and over any
 * sequence of events.
 */
module AccordionProperties {
  import opened Opt
  import opened Geometry
  import opened Accordion

  predicate NoDuplicates(ids: seq<string>)
  {
    forall i, j :: 0 <= i < j < |ids| ==> ids[i] != ids[j]
  }

  // ---- The filter used for closing ----------------------------------------

  lemma {:induction false} WithoutAbsent(ids: seq<string>, id: string)
    requires id !in ids
    ensures Without(ids, id) == ids
  {
    if |ids| > 0 {
      WithoutAbsent(ids[1..], id);
    }
  }

  /** The head of a duplicate-free list does not occur in its tail. */
  lemma HeadNotInTail(ids: seq<string>)
    requires |ids| > 0 && NoDuplicates(ids)
    ensures ids[0] !in ids[1..]
  {
    forall j | 0 <= j < |ids[1..]|
      ensures ids[1..][j] != ids[0]
    {
      assert ids[1..][j] == ids[j + 1];
    }
  }

  lemma TailNoDuplicates(ids: seq<string>)
    requires |ids| > 0 && NoDuplicates(ids)
    ensures NoDuplicates(ids[1..])
  {
    forall i, j | 0 <= i < j < |ids[1..]|
      ensures ids[1..][i] != ids[1..][j]
    {
      assert ids[1..][i] == ids[i + 1] && ids[1..][j] == ids[j + 1];
    }
  }

  /**
   * On a list without duplicates, closing `ids[k]` removes exactly that
   * entry and keeps the others in their order.
   */
  lemma {:induction false} WithoutRemovesOne(ids: seq<string>, k: nat)
    requires k < |ids| && NoDuplicates(ids)
    ensures Without(ids, ids[k]) == ids[..k] + ids[k + 1..]
  {
    var tail := ids[1..];
    if k == 0 {
      HeadNotInTail(ids);
      WithoutAbsent(tail, ids[0]);
    } else {
      assert tail[k - 1] == ids[k];
      TailNoDuplicates(ids);
      WithoutRemovesOne(tail, k - 1);
      assert ids[0] != ids[k];
      assert Without(ids, ids[k]) == [ids[0]] + Without(tail, ids[k]);
      assert ids[..k] == [ids[0]] + tail[..k - 1];
      assert ids[k + 1..] == tail[k..];
    }
  }

  lemma {:induction false} WithoutKeepsNoDuplicates(ids: seq<string>, id: string)
    requires NoDuplicates(ids)
    ensures NoDuplicates(Without(ids, id))
  {
    if |ids| > 0 {
      WithoutKeepsNoDuplicates(ids[1..], id);
      var rest := Without(ids[1..], id);
      if ids[0] != id {
        assert ids[0] !in rest;
        var r := [ids[0]] + rest;
        forall i, j | 0 <= i < j < |r| ensures r[i] != r[j] {
          if i > 0 {
            assert r[i] == rest[i - 1] && r[j] == rest[j - 1];
          } else {
            assert r[j] == rest[j - 1];
          }
        }
      }
    }
  }

  // ---- Clicks ---------------------------------------------------------------

  /**
   * Closing: a click on an open item, allowed when the accordion is
   * collapsible or more than one id is open, removes that id (and only it),
   * and hands the new list to `onValueChange` once.
   */
  lemma ToggleCloses(cfg: Config, s: State, id: string, index: nat)
    requires id in s.openIds && (cfg.collapsible || |s.openIds| > 1)
    ensures var r := Toggle(cfg, s, id, index);
            && r.emitted == Some(r.next.openIds)
            && (forall x :: x in r.next.openIds <==> x in s.openIds && x != id)
            && (NoDuplicates(s.openIds) ==>
                  exists k :: 0 <= k < |s.openIds| && s.openIds[k] == id
                              && r.next.openIds == s.openIds[..k] + s.openIds[k + 1..])
  {
    var k :| 0 <= k < |s.openIds| && s.openIds[k] == id;
    if NoDuplicates(s.openIds) {
      WithoutRemovesOne(s.openIds, k);
    }
  }

  /**
   * The non-collapsible floor: with `collapsible` off, a click on the only
   * open item changes neither the open list nor the marker and emits
   * nothing, in either mode.
   */
  lemma ToggleKeepsLastOpen(cfg: Config, s: State, id: string, index: nat)
    requires !cfg.collapsible && s.openIds == [id]
    ensures var r := Toggle(cfg, s, id, index);
            && r.next.openIds == s.openIds
            && r.next.manuallyClosedId == s.manuallyClosedId
            && r.emitted.None?
  {
  }

  /**
   * Opening: a click on a closed item replaces the list by that id in single
   * mode and appends it in multiple mode, clears the marker, and emits the
   * new list once.
   */
  lemma ToggleOpens(cfg: Config, s: State, id: string, index: nat)
    requires id !in s.openIds
    ensures var r := Toggle(cfg, s, id, index);
            && r.next.openIds == (if cfg.mode == Single then [id] else s.openIds + [id])
            && r.next.manuallyClosedId.None?
            && r.emitted == Some(r.next.openIds)
  {
  }

  /** A click emits exactly when it changes the open list, and then emits the new list. */
  lemma ToggleEmitsIffChanged(cfg: Config, s: State, id: string, index: nat)
    ensures var r := Toggle(cfg, s, id, index);
            && (r.emitted.Some? <==> r.next.openIds != s.openIds)
            && (r.emitted.Some? ==> r.emitted.value == r.next.openIds)
  {
    var r := Toggle(cfg, s, id, index);
    if id in s.openIds && (cfg.collapsible || |s.openIds| > 1) {
      assert id !in r.next.openIds;
    } else if id !in s.openIds {
      assert id in r.next.openIds;
    }
  }

  /**
   * The pause and the marker: while detection is active every click (even
   * one that changes nothing) pauses scroll detection and arms the cooldown;
   * otherwise neither changes. Opening clears the marker; an allowed close
   * sets it to the closed id when detection is active and leaves it alone
   * otherwise.
   */
  lemma ToggleMarksManualInteraction(cfg: Config, s: State, id: string, index: nat)
    ensures var r := Toggle(cfg, s, id, index);
            var active := DetectionActive(cfg, s.isMobile);
            && (active ==> r.next.manuallySelected && r.next.cooldownPending)
            && (!active ==> r.next.manuallySelected == s.manuallySelected
                            && r.next.cooldownPending == s.cooldownPending)
            && (id !in s.openIds ==> r.next.manuallyClosedId.None?)
            && (id in s.openIds && (cfg.collapsible || |s.openIds| > 1) ==>
                  r.next.manuallyClosedId == if active then Some(id) else s.manuallyClosedId)
            && (r.scrollTo.Some? <==> active && cfg.scrollToCenter && id !in s.openIds)
            && r.scrollTo == (if active && cfg.scrollToCenter && id !in s.openIds then Some(index) else None)
            && r.next.isMobile == s.isMobile && r.next.settlePending == s.settlePending
  {
  }

  // ---- Scroll samples -------------------------------------------------------

  /** While paused by a click, a scroll sample changes neither the open list nor the marker. */
  lemma ScrollPausedByManualSelection(cfg: Config, s: State, ids: seq<string>, rects: seq<Option<Rect>>, h: real)
    requires RefsMatchItems(ids, rects) && s.manuallySelected
    ensures var r := ScrollSample(cfg, s, ids, rects, h);
            && r.next.openIds == s.openIds
            && r.next.manuallyClosedId == s.manuallyClosedId
            && r.emitted.None?
  {
  }

  /**
   * What a scroll sample may do: open exactly the candidate card, alone,
   * when it is neither the marked card nor already first in the list, and
   * otherwise leave the list as it was; it emits exactly when the list
   * changes; the marker survives only on the candidate card.
   */
  lemma ScrollActivatesCandidate(cfg: Config, s: State, ids: seq<string>, rects: seq<Option<Rect>>, h: real)
    requires RefsMatchItems(ids, rects)
    ensures var r := ScrollSample(cfg, s, ids, rects, h);
            var k := Candidate(cfg, ids, rects, h);
            && (r.emitted.Some? <==>
                  && DetectionActive(cfg, s.isMobile) && !s.manuallySelected && k.Some?
                  && Some(ids[k.value]) != s.manuallyClosedId
                  && (s.openIds == [] || s.openIds[0] != ids[k.value]))
            && (r.emitted.Some? ==> r.next.openIds == [ids[k.value]] && r.emitted == Some(r.next.openIds))
            && (r.emitted.None? ==> r.next.openIds == s.openIds)
            && (r.emitted.Some? <==> r.next.openIds != s.openIds)
            && (r.next.manuallyClosedId == s.manuallyClosedId || r.next.manuallyClosedId.None?)
            && (r.next.manuallyClosedId != s.manuallyClosedId ==>
                  k.Some? && s.manuallyClosedId != Some(ids[k.value]))
  {
  }

  /**
   * A scroll sample never starts or ends the pause: activating a card by
   * scrolling touches only the open list and the marker (and arms the
   * settle timer), so the pause, the cooldown and the mobile flag stay.
   */
  lemma ScrollKeepsPause(cfg: Config, s: State, ids: seq<string>, rects: seq<Option<Rect>>, h: real)
    requires RefsMatchItems(ids, rects)
    ensures var r := ScrollSample(cfg, s, ids, rects, h);
            && r.next.manuallySelected == s.manuallySelected
            && r.next.cooldownPending == s.cooldownPending
            && r.next.isMobile == s.isMobile
            && r.scrollTo.None?
  {
  }

  /** A scroll sample never reopens the card the user closed. */
  lemma ScrollNeverReopensClosed(cfg: Config, s: State, ids: seq<string>, rects: seq<Option<Rect>>, h: real)
    requires RefsMatchItems(ids, rects)
    ensures var r := ScrollSample(cfg, s, ids, rects, h);
            r.emitted.Some? ==> |r.next.openIds| == 1 && Some(r.next.openIds[0]) != s.manuallyClosedId
  {
  }

  /**
   * Manual-close suppression: after the user closes item `id` while detection
   * is active and the cooldown has run out, a sample whose candidate is still
   * that card leaves it closed, emits nothing and keeps the marker.
   */
  lemma ManualCloseSuppression(cfg: Config, s: State, id: string, index: nat,
                               ids: seq<string>, rects: seq<Option<Rect>>, h: real)
    requires DetectionActive(cfg, s.isMobile)
    requires id in s.openIds && (cfg.collapsible || |s.openIds| > 1)
    requires RefsMatchItems(ids, rects)
    requires var k := Candidate(cfg, ids, rects, h); k.Some? && ids[k.value] == id
    ensures var t := ExpireCooldown(Toggle(cfg, s, id, index).next);
            var r := ScrollSample(cfg, t, ids, rects, h);
            && !t.manuallySelected
            && r.emitted.None?
            && id !in r.next.openIds
            && r.next.manuallyClosedId == Some(id)
  {
  }

  /** Once a sample's candidate is a different card, the marker is cleared. */
  lemma ScrollAwayClearsMarker(cfg: Config, s: State, ids: seq<string>, rects: seq<Option<Rect>>, h: real)
    requires RefsMatchItems(ids, rects)
    requires DetectionActive(cfg, s.isMobile) && !s.manuallySelected
    requires var k := Candidate(cfg, ids, rects, h); k.Some? && s.manuallyClosedId != Some(ids[k.value])
    ensures ScrollSample(cfg, s, ids, rects, h).next.manuallyClosedId.None?
  {
  }

  /** A second sample with unchanged geometry changes nothing and emits nothing. */
  lemma ScrollIdempotent(cfg: Config, s: State, ids: seq<string>, rects: seq<Option<Rect>>, h: real)
    requires RefsMatchItems(ids, rects)
    ensures var r1 := ScrollSample(cfg, s, ids, rects, h);
            var r2 := ScrollSample(cfg, r1.next, ids, rects, h);
            r2.next == r1.next && r2.emitted.None?
  {
  }

  /**
   * The pause lifts early: every sample taken while detection is active,
   * paused or not, arms the 150 ms settle timer, and when it fires detection
   * resumes, before the click's cooldown has run out.
   */
  lemma SettleEndsPause(cfg: Config, s: State, ids: seq<string>, rects: seq<Option<Rect>>, h: real)
    requires RefsMatchItems(ids, rects)
    requires DetectionActive(cfg, s.isMobile)
    ensures ScrollSample(cfg, s, ids, rects, h).next.settlePending
    ensures var t := ExpireSettle(ScrollSample(cfg, s, ids, rects, h).next);
            !t.manuallySelected && t.cooldownPending == s.cooldownPending
  {
  }

  /** With detection inactive no scroll listener is registered: a sample changes nothing. */
  lemma ScrollInactiveIsNoOp(cfg: Config, s: State, ids: seq<string>, rects: seq<Option<Rect>>, h: real)
    requires RefsMatchItems(ids, rects)
    requires !DetectionActive(cfg, s.isMobile)
    ensures ScrollSample(cfg, s, ids, rects, h) == Step(s, None, None)
  {
  }

  // ---- Event sequences ------------------------------------------------------

  datatype Event =
    | Click(id: string, index: nat)
    | Scroll(ids: seq<string>, rects: seq<Option<Rect>>, innerHeight: real)
    | CooldownFires
    | SettleFires
    | Resized(innerWidth: int, hasTouch: bool)

  predicate WellFormed(e: Event)
  {
    e.Scroll? ==> RefsMatchItems(e.ids, e.rects)
  }

  /** One event's step; timers and resizes emit nothing. */
  function Apply(cfg: Config, s: State, e: Event): Step
    requires WellFormed(e)
  {
    match e
    case Click(id, index) => Toggle(cfg, s, id, index)
    case Scroll(ids, rects, h) => ScrollSample(cfg, s, ids, rects, h)
    case CooldownFires => Step(ExpireCooldown(s), None, None)
    case SettleFires => Step(ExpireSettle(s), None, None)
    case Resized(w, touch) => Step(CheckMobile(cfg, s, w, touch), None, None)
  }

  /** The final state and every emitted list after a sequence of events. */
  datatype Trace = Trace(final: State, emitted: seq<seq<string>>)

  function Run(cfg: Config, s: State, es: seq<Event>): Trace
    requires forall k :: 0 <= k < |es| ==> WellFormed(es[k])
    decreases |es|
  {
    if |es| == 0 then Trace(s, [])
    else
      var r := Apply(cfg, s, es[0]);
      var rest := Run(cfg, r.next, es[1..]);
      Trace(rest.final, Log(r.emitted) + rest.emitted)
  }

  /** Single mode keeps at most one item open across any sequence of clicks, samples and timers. */
  lemma {:induction false} SingleModeExclusive(cfg: Config, s: State, es: seq<Event>)
    requires cfg.mode == Single && |s.openIds| <= 1
    requires forall k :: 0 <= k < |es| ==> WellFormed(es[k])
    ensures |Run(cfg, s, es).final.openIds| <= 1
    decreases |es|
  {
    if |es| > 0 {
      var r := Apply(cfg, s, es[0]);
      if es[0].Click? && es[0].id in s.openIds && (cfg.collapsible || |s.openIds| > 1) {
        assert |Without(s.openIds, es[0].id)| <= |s.openIds|;
      }
      assert |r.next.openIds| <= 1;
      SingleModeExclusive(cfg, r.next, es[1..]);
    }
  }

  /** Every event keeps an open list free of duplicates. */
  lemma ApplyKeepsNoDuplicates(cfg: Config, s: State, e: Event)
    requires WellFormed(e) && NoDuplicates(s.openIds)
    ensures NoDuplicates(Apply(cfg, s, e).next.openIds)
  {
    if e.Click? && e.id in s.openIds {
      WithoutKeepsNoDuplicates(s.openIds, e.id);
    } else if e.Click? {
      var r := Apply(cfg, s, e).next.openIds;
      if cfg.mode == Multiple {
        forall i, j | 0 <= i < j < |r| ensures r[i] != r[j] {
          if j == |r| - 1 {
            assert r[i] == s.openIds[i];
          }
        }
      }
    }
  }

  /**
   * With `collapsible` off and no duplicate ids, once an item is open some
   * item stays open, in either mode.
   */
  lemma {:induction false} NonCollapsibleStaysOpen(cfg: Config, s: State, es: seq<Event>)
    requires !cfg.collapsible && s.openIds != [] && NoDuplicates(s.openIds)
    requires forall k :: 0 <= k < |es| ==> WellFormed(es[k])
    ensures Run(cfg, s, es).final.openIds != []
    decreases |es|
  {
    if |es| > 0 {
      var e := es[0];
      var r := Apply(cfg, s, e);
      ApplyKeepsNoDuplicates(cfg, s, e);
      if e.Click? && e.id in s.openIds && |s.openIds| > 1 {
        var k :| 0 <= k < |s.openIds| && s.openIds[k] != e.id;
        assert s.openIds[k] in r.next.openIds;
      }
      assert r.next.openIds != [];
      NonCollapsibleStaysOpen(cfg, r.next, es[1..]);
    }
  }

  /**
   * Without the no-duplicates condition the floor does not hold: `defaultOpen`
   * `["a", "a"]` in multiple mode, not collapsible, and a click on "a" empties the list,
   * because the length test counts the copy and the filter removes both.
   */
  lemma DuplicateDefaultsCanEmpty()
    ensures var cfg := Defaults.(mode := Multiple, collapsible := false);
            var s := Mount(Many(["a", "a"]), 1024, false);
            var r := Toggle(cfg, s, "a", 0);
            r.next.openIds == [] && r.emitted == Some([])
  {
    var s := Mount(Many(["a", "a"]), 1024, false);
    assert "a" in s.openIds;
    assert Without(["a", "a"], "a") == [] by {
      assert ["a", "a"][1..] == ["a"];
      assert ["a"][1..] == [];
    }
  }

  /**
   * The callback tests of the component, as traces: in single mode clicking
   * "1" emits `["1"]`; with "1" open by default and `collapsible`, clicking it
   * emits `[]`; in multiple mode clicking "1" then "2" emits `["1"]` then
   * `["1", "2"]`.
   */
  lemma ClickTraces()
    ensures Run(Defaults, Mount(Absent, 1024, false), [Click("1", 0)]).emitted == [["1"]]
    ensures Run(Defaults.(collapsible := true), Mount(One("1"), 1024, false), [Click("1", 0)]).emitted == [[]]
    ensures Run(Defaults.(mode := Multiple), Mount(Absent, 1024, false), [Click("1", 0), Click("2", 1)]).emitted
            == [["1"], ["1", "2"]]
  {
    var s0 := Mount(Absent, 1024, false);
    var one := [Click("1", 0)];
    assert one[1..] == [];
    assert Toggle(Defaults, s0, "1", 0).emitted == Some(["1"]);
    var c1 := Mount(One("1"), 1024, false);
    assert c1.openIds == ["1"];
    assert Without(["1"], "1") == [] by {
      assert ["1"][1..] == [];
    }
    assert Toggle(Defaults.(collapsible := true), c1, "1", 0).emitted == Some([]);
    var m1 := Toggle(Defaults.(mode := Multiple), s0, "1", 0).next;
    assert m1.openIds == ["1"];
    assert "2" !in m1.openIds;
    assert Defaults.(mode := Multiple).mode == Multiple;
    assert m1.openIds + ["2"] == ["1", "2"];
    assert Toggle(Defaults.(mode := Multiple), m1, "2", 1).emitted == Some(["1", "2"]);
    var ms := [Click("1", 0), Click("2", 1)];
    assert ms[1..] == [Click("2", 1)];
    assert ms[1..][1..] == [];
  }
}
