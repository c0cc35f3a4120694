# Accordion selection and scroll activation, in Dafny

This project models the behavioural core of the lite-kit accordion widget. It covers three parts:

- **The selection controller** of the `Accordion` component. It builds the initial open list from
  `defaultOpen`. A header click (`handleToggle`) applies single or multiple mode, the `collapsible`
  rule, the manual-close marker, the manual-selection pause and the `onValueChange` emission. A scroll
  event (`handleScroll`) opens the card whose centre is nearest the centre of the viewport below the
  fixed header, if it is near enough.
- **The standalone scroll-detection hook** `useScrollDetection`, and `useManualClose`. The hook
  considers only visible items. It applies relative hysteresis against the active item, and works
  only on mobile viewports unless told otherwise. Its scroll handler also skips a manually closed
  index, but the hook hands out no way to set that index (see "## Left out"). The component does
  not use it.
- **`cn`**, the class-name combiner, modelled as `ClassNames.Cn(args) = Join(Kept(args))`: `Kept`
  drops the falsy arguments (`filter(Boolean)`) and `Join` puts one space between the rest.

The selection controller is specified by pure step functions over a state record, in module
`Accordion`: `Toggle`, `ScrollSample`, `ExpireCooldown`, `ExpireSettle` and `CheckMobile`. The class
`Accordion.Controller` holds the same state in fields. Each of its methods is proved to leave the
fields equal to the matching step's result. Each method also appends what it handed out to two logs:
the lists passed to `onValueChange`, and the indices scrolled into view. The argmin loop of
`handleScroll` is the method `Accordion.ClosestCard`, proved equal to the left-to-right scan
`Geometry.Nearest`. `Geometry.NearestIsFirstNearest` proves that scan returns the first nearest
element. Module `AccordionProperties` holds the promises: one lemma per single-event property, and a
`Run` function over event sequences (clicks, scroll samples, timer expiries, resizes) with invariants
proved by induction.

The hook is module `ScrollDetection`. Its pure `Decide` function says what one scroll sample does;
`GatedCandidate` is the scan over visible items followed by the hysteresis gate, and `Decide` adds the
pause and the manual-close marker. `VisibleCandidate` is its `for` loop and `GateCandidate` the
method that computes `GatedCandidate`. The class `ScrollDetector` holds the hook's state, and
`ManualClose` models `useManualClose`.

In these places the model follows the code, which a reader might not expect:

- A single-id `defaultOpen` is opened whether or not an item has that id.
- An array `defaultOpen` is used as given even in single mode, so single mode can start with more
  than one item open.
- `collapsible=false` forbids closing the last open item in multiple mode as well as in single mode.
- The pause after a click does not always last for the cooldown. Every scroll sample re-arms a
  150 ms settle timer that also ends the pause (`AccordionProperties.SettleEndsPause`).
- The component applies no hysteresis; only the hook does, and in the relative form.

## Model

| member | source | states |
|---|---|---|
| `Accordion.InitialOpenIds` | src/accordion/Accordion.tsx:50-54 | nothing is open exactly when `defaultOpen` is absent, `""` or `[]`; an array is taken verbatim, unvalidated, in any mode; a non-empty string opens exactly that id |
| `Accordion.Without` | src/accordion/Accordion.tsx:113 | the filtered list holds exactly the ids of the old list other than the clicked one, and is no longer |
| `Accordion.Candidate` | src/accordion/Accordion.tsx:167-169 | a candidate card always has an item, so `items[closestIndex].id` is defined |
| `Accordion.CandidateIsNearestWithinThreshold` | src/accordion/Accordion.tsx:148-168 | the candidate is the first measured card nearest the centre below the header and nearer than `threshold` times the effective height; there is none exactly when no measured card is that near |
| `Accordion.ClosestCard` | src/accordion/Accordion.tsx:152-165 | the `forEach` with running index (-1 for none) and distance computes the left-to-right first-minimiser scan |
| `Accordion.ScrollCandidate` | src/accordion/Accordion.tsx:148-168 | the measuring half of a sample yields exactly the candidate card |
| `Accordion.Controller.constructor` | src/accordion/Accordion.tsx:56-73 | the mounted state: the initial open list, no marker, not paused, the mobile check applied, no timers, nothing emitted |
| `Accordion.Controller.HandleToggle` | src/accordion/Accordion.tsx:79-130 | a click leaves exactly the `Toggle` state, logs its emission (if any) and its scroll-into-view (if any) |
| `Accordion.Controller.HandleScroll` | src/accordion/Accordion.tsx:136-182 | a scroll event leaves exactly the `ScrollSample` state and logs its emission (if any) |
| `Accordion.Controller.CooldownExpired` | src/accordion/Accordion.tsx:101-103 | the pending cooldown timer ends the pause |
| `Accordion.Controller.SettleExpired` | src/accordion/Accordion.tsx:141-143 | the pending settle timer ends the pause |
| `Accordion.Controller.Resize` | src/accordion/Accordion.tsx:66-76 | the mobile flag becomes `innerWidth < 768 or touch`; if detection turns off, the settle timer is cancelled with the listener |
| `AccordionProperties.WithoutRemovesOne` | src/accordion/Accordion.tsx:113 | on a duplicate-free list, closing `ids[k]` removes exactly that entry and keeps the rest in order |
| `AccordionProperties.WithoutKeepsNoDuplicates` | src/accordion/Accordion.tsx:113 | filtering keeps a duplicate-free list duplicate-free |
| `AccordionProperties.ToggleCloses` | src/accordion/Accordion.tsx:106-116 | an allowed close removes exactly the clicked id (by position on a duplicate-free list), keeps the others, and emits the new list once |
| `AccordionProperties.ToggleKeepsLastOpen` | src/accordion/Accordion.tsx:108 | with `collapsible=false`, clicking the only open item changes neither the list nor the marker and emits nothing, in either mode |
| `AccordionProperties.ToggleOpens` | src/accordion/Accordion.tsx:117-129 | opening sets the list to `[id]` in single mode, appends `id` in multiple mode, clears the marker, emits the new list once |
| `AccordionProperties.ToggleEmitsIffChanged` | src/accordion/Accordion.tsx:106-129 | a click emits exactly when the open list changes, and emits the new list |
| `AccordionProperties.ToggleMarksManualInteraction` | src/accordion/Accordion.tsx:82-119 | with detection active every click pauses detection and arms the cooldown; otherwise neither changes; opening clears the marker; an allowed close sets it only when detection is active; a scroll-into-view of the clicked index, and of no other, is requested exactly when active, configured and opening; the mobile flag and the settle timer are untouched |
| `AccordionProperties.ScrollPausedByManualSelection` | src/accordion/Accordion.tsx:145-146 | while paused a sample changes neither the open list nor the marker and emits nothing |
| `AccordionProperties.ScrollActivatesCandidate` | src/accordion/Accordion.tsx:167-180 | a sample emits exactly when active, unpaused, with a candidate that is neither marked nor first in the list; it then opens that card alone; otherwise the list is unchanged; the marker only survives or is cleared, and is cleared only for a different candidate |
| `AccordionProperties.ScrollKeepsPause` | src/accordion/Accordion.tsx:136-180 | a scroll sample neither starts nor ends the pause: `manuallySelected`, the cooldown timer and the mobile flag are unchanged, and nothing is scrolled into view |
| `AccordionProperties.ScrollNeverReopensClosed` | src/accordion/Accordion.tsx:176-180 | a sample never opens the manually closed card |
| `AccordionProperties.ManualCloseSuppression` | src/accordion/Accordion.tsx:109-180 | after the user closes a card with detection active and the cooldown ends, a sample still centred on it keeps it closed, emits nothing and keeps the marker |
| `AccordionProperties.ScrollAwayClearsMarker` | src/accordion/Accordion.tsx:171-174 | a sample whose candidate is another card clears the marker |
| `AccordionProperties.ScrollIdempotent` | src/accordion/Accordion.tsx:177-180 | a second sample with the same geometry changes nothing and emits nothing |
| `AccordionProperties.SettleEndsPause` | src/accordion/Accordion.tsx:137-146 | every sample taken while detection is active, paused or not, arms the settle timer, whose expiry ends the pause with the cooldown still pending |
| `AccordionProperties.ScrollInactiveIsNoOp` | src/accordion/Accordion.tsx:134 | with detection inactive no listener is registered, so a sample changes no state, emits nothing and scrolls nothing |
| `AccordionProperties.SingleModeExclusive` | src/accordion/Accordion.tsx:121-122 | in single mode at most one item is open after any sequence of clicks, samples, timers and resizes, if at most one was at the start |
| `AccordionProperties.ApplyKeepsNoDuplicates` | src/accordion/Accordion.tsx:113-125 | no event introduces a duplicate id into the open list |
| `AccordionProperties.NonCollapsibleStaysOpen` | src/accordion/Accordion.tsx:108 | with `collapsible=false` and no duplicate ids, a non-empty open list stays non-empty forever, in either mode |
| `AccordionProperties.DuplicateDefaultsCanEmpty` | src/accordion/Accordion.tsx:108-113 | with duplicate ids from `defaultOpen` that floor fails: `["a","a"]`, multiple, not collapsible, click "a" gives `[]` |
| `AccordionProperties.ClickTraces` | src/accordion/Accordion.test.tsx:214-272 | the three callback tests: single mode, click 1 emits `["1"]`; with `defaultOpen="1"` and `collapsible`, click 1 emits `[]`; multiple mode, click 1 then 2 emits `["1"]`, `["1","2"]` |
| `Geometry.NearestIsFirstNearest` | src/accordion/useScrollDetection.ts:109-127 | the strict-`<` scan returns the first index of minimal centre distance among present elements, and none only when no element is present |
| `Geometry.NearestUnique` | src/accordion/Accordion.tsx:152-165 | the first nearest element is unique, so the scan's answer is the only one |
| `ScrollDetection.EligibleItems` | src/accordion/useScrollDetection.ts:112-121 | exactly the indices below `itemCount` with a ref whose rectangle has `bottom > 0` and `top < viewportHeight` take part, with their own rectangles (this unfolds the eligibility filter; the loop's link to it is `VisibleCandidate`'s contract) |
| `ScrollDetection.VisibleCandidate` | src/accordion/useScrollDetection.ts:109-127 | the `for` loop with null index and infinite distance computes the first-minimiser scan over the eligible items |
| `ScrollDetection.GateCandidate` | src/accordion/useScrollDetection.ts:109-142 | the scan plus the comparison against the active item yields exactly the candidate that passes the hysteresis gate |
| `ScrollDetection.DecideWhilePaused` | src/accordion/useScrollDetection.ts:96-100 | inactive or manually selected, a sample makes no callback and leaves the manually closed index alone |
| `ScrollDetection.DecideActivation` | src/accordion/useScrollDetection.ts:129-152 | a callback index is below `itemCount`, visible, the first nearest eligible item, not the active index, not the manually closed index, and passed the hysteresis gate |
| `ScrollDetection.DecideActivates` | src/accordion/useScrollDetection.ts:129-152 | conversely, when detection runs unpaused, a visible first-nearest item that is not active and passes the hysteresis gate is passed to the callback unless it is the marked index; a marker on another index is reset, a marker on that index is kept |
| `ScrollDetection.DecideNothingVisible` | src/accordion/useScrollDetection.ts:130 | with no visible item there is no callback and the marker stays |
| `ScrollDetection.DecideKeepsActiveInsideBand` | src/accordion/useScrollDetection.ts:131-142 | if the candidate is not closer than `1 - hysteresis` times the measured active item's distance, nothing happens |
| `ScrollDetection.DecideResetsMarker` | src/accordion/useScrollDetection.ts:144-147 | the manually closed index is only kept or reset, and reset only when the gate passes for a candidate that is neither active nor marked, which is then activated |
| `ScrollDetection.DecideIdempotent` | src/accordion/useScrollDetection.ts:130 | after a callback with `c`, a repeated sample with `c` active makes no callback and keeps the marker |
| `ScrollDetection.ScrollDetector.constructor` | src/accordion/useScrollDetection.ts:40-53 | mounted: not paused, no marker, mobile flag from the width check, nothing called |
| `ScrollDetection.ScrollDetector.Resize` | src/accordion/useScrollDetection.ts:47-49 | the mobile flag becomes `innerWidth < 768`; nothing else changes |
| `ScrollDetection.ScrollDetector.HandleManualInteraction` | src/accordion/useScrollDetection.ts:59-82 | a no-op when detection is inactive; otherwise pauses detection, arms the timer, and requests a scroll of the item when configured and mounted |
| `ScrollDetection.ScrollDetector.CooldownExpired` | src/accordion/useScrollDetection.ts:79-81 | the pending timer ends the pause |
| `ScrollDetection.ScrollDetector.MarkAsManuallyClosed` | src/accordion/useScrollDetection.ts:85-87 | the manually closed index becomes the given index |
| `ScrollDetection.ScrollDetector.ClearManuallyClosed` | src/accordion/useScrollDetection.ts:90-92 | the manually closed index becomes null |
| `ScrollDetection.ScrollDetector.HandleScroll` | src/accordion/useScrollDetection.ts:98-154 | a scroll event calls `onActiveChange` at most once, exactly as `Decide` says, and sets the marker as `Decide` says |
| `ScrollDetection.ManualClose.constructor` | src/accordion/useScrollDetection.ts:191-192 | starts with no manually closed index |
| `ScrollDetection.ManualClose.SetManuallyClosed` | src/accordion/useScrollDetection.ts:196 | the setter stores the given index or null |
| `ScrollDetection.ManualClose.ClearManuallyClosed` | src/accordion/useScrollDetection.ts:197 | the reset stores null |
| `ClassNames.Kept` | src/utils/cn.ts:6 | the kept strings are no more than the arguments and none is empty |
| `ClassNames.KeptMembers` | src/utils/cn.ts:6 | a string is kept exactly when it is a non-empty argument |
| `ClassNames.KeptConcat` | src/utils/cn.ts:6 | filtering keeps the arguments' order: it distributes over concatenation |
| `ClassNames.CnIgnoresFalsy` | src/utils/cn.ts:6 | `undefined`, `null`, `false` and `""` contribute nothing, not even a separator |
| `ClassNames.CnAllFalsy` | src/utils/cn.ts:6 | with no truthy argument the result is `""` |
| `ClassNames.CnSingle` | src/utils/cn.ts:6 | a single truthy argument is returned unchanged |
| `ClassNames.CnLength` | src/utils/cn.ts:6 | with k >= 1 kept strings the length is their total length plus k - 1 |
| `ClassNames.CnSplitRoundTrip` | src/utils/cn.ts:5-6 | splitting the result on spaces gives back exactly the kept strings, when at least one is kept and none holds a space |

## Left out

- Rendering is not modelled: markup, BEM and utility class strings, ARIA attributes, the chevron and
  icons. `cn` is modelled on its own.
- Timers have no clock. The 800 ms cooldown, the `cooldown` prop and the 150 ms settle delay become
  "pending" flags. Their expiry is an explicit event, and cancel-and-reschedule means at most one
  pending timer of each kind. The hook's timer is fixed at 800 ms whatever the configuration says.
- Browser state is given as parameters: viewport width and height, the `ontouchstart` probe and
  element rectangles. `scrollIntoView` is recorded as the index scrolled to; the smooth scroll itself
  is not modelled.
- Geometry uses exact reals. Floating-point rounding, `NaN` and infinite coordinates are not modelled.
  The scans' initial `Infinity` is "no candidate yet".
- React semantics are not modelled. The scroll effect re-subscribes whenever one of its dependencies
  changes. Each time it clears the pending settle timer and runs `handleScroll` once. State updates are
  batched, and handlers see the state of their render. Here each event sees the state left by the
  previous one. A resize that turns detection on does not run the initial check by itself; the caller
  issues a scroll event for it.
- Unmount cleanup, which cancels all timers, is not modelled.
- `Accordion.Controller.HandleScroll` requires that no element is measured at an index past the item
  list. The rendering layer nulls the ref of an item that is no longer rendered, so
  `items[closestIndex]?.id` is never `undefined`.
- `onValueChange` is optional in the component. The emission log records every call that would be
  made if it were given.
- `Accordion.Controller.HandleToggle` takes the clicked item's element to be mounted, because the
  click came from its header.
- `ScrollDetection.ScrollDetector.MarkAsManuallyClosed`: the hook's return object
  (src/accordion/useScrollDetection.ts:182-187) does not include `markAsManuallyClosed`, so no caller
  can set the hook's marker and it stays null. The model keeps the callback as a method, so the
  marker clauses of `DecideActivation`, `DecideActivates` and `DecideResetsMarker` also cover states
  that a caller of the hook as shipped cannot reach.
- The hook's early return for a null ref container is not modelled; the refs are always given as a
  sequence.
- The bundled builds under `dist/`, the stories, the test setup, the re-exports and the type
  declarations have no behaviour of their own. `dist/` holds other revisions with different scroll
  rules, which are not mixed in.
