# Audacity timeline ruler: quick-play gesture model

This project models the quick-play part of Audacity's timeline ruler
(`AdornedRulerPanel`). A mouse gesture on the ruler picks or adjusts the
play region and then starts playback:

- **Mouse-down** decides whether the gesture drags the region's start,
  drags its end, or is a pending click.
- **Each move** snaps the quick-play time and moves one edge. A pending
  click becomes a range sweep once the pointer leaves it. The selection
  may be dragged along.
- **Release** orders the region and clears it when it has no audio to
  play. It then stops the transport and starts normal, looped or
  cut-preview playback of the chosen span.
- **Cancel** puts the region, its lock and the selection back as they
  were.

The project also models:

- the indicator size helpers and the ruler height;
- the dirty-rectangle protocol of the two overlays (the ruler indicator
  and the track-panel guideline);
- the scrub-zone status message and the scrub handle's mouse-down.

The model has three layers:

- Module `QuickPlay` holds pure functions over a `Ruler` value. They state
  the state machine and its properties. Lemmas state properties of whole
  gestures (click, any sequence of moves, then cancel or release).
- Module `RulerPanel` holds the classes `AdornedRulerPanel` and
  `QPHandle`. Their methods update fields in place. Each is proved to move
  its object's `Model()` exactly as the matching `QuickPlay` function says.
- `Overlays` and `Scrubbing` follow the same pattern for the overlays and
  the scrub handle.

The rest of the editor is passed in as parameters:

- the time/pixel mappings (`time2Pos`, `pos2Time`);
- snapping to the selection (`snap`);
- the tracks' extent (`t0`, `t1`);
- the scrubber's flags.

Requests to the audio transport (stop, pause, play with a span and a
mode) are appended to a `transport` sequence.

## Model

| member | source | states |
|---|---|---|
| RulerGeometry.CDiv | src/AdornedRulerPanel.cpp:91-94 | the source's `int` division truncates toward zero: the quotient brackets the dividend from below for non-negative and from above for negative operands |
| RulerGeometry.IndicatorHeightForWidth | src/AdornedRulerPanel.cpp:91-94 | for a non-negative width, the height is non-negative, at most three quarters of the width, and less than 1.5 pixels short of it |
| RulerGeometry.IndicatorWidthForHeight | src/AdornedRulerPanel.cpp:96-102 | the width is never below the small width (9), is even unless it is that minimum, and at most 4/3 of the height |
| RulerGeometry.HeightWidthRoundTrip | src/AdornedRulerPanel.cpp:91-102 | height to width and back loses at most one pixel, and never exceeds the height or 6, the smallest indicator's height (the source calls it "not an exact inverse") |
| RulerGeometry.WidthHeightRoundTrip | src/AdornedRulerPanel.cpp:91-102 | width (at least 9) to height and back loses at most three pixels and never grows |
| RulerGeometry.IndicatorBigHeight | src/AdornedRulerPanel.cpp:104-108 | the big indicator is the scrub zone less the top margin (13), which is at least the medium width |
| RulerGeometry.IndicatorBigWidth | src/AdornedRulerPanel.cpp:110-113 | the big indicator is 16 pixels wide, and its triangle's height fits in the big height |
| RulerGeometry.GetRulerHeight | src/AdornedRulerPanel.cpp:2128-2131 | the ruler is at least the proper height (29), and showing the scrub bar adds exactly the scrub height (14) |
| RulerGeometry.IsWithinMarker | src/AdornedRulerPanel.cpp:1363-1373 | an unset (negative) marker is never hit; otherwise a column hits it iff it lies in the half-open window of 4 pixels on either side of the marker's column |
| RulerGeometry.WithinMarkerEdges | src/AdornedRulerPanel.cpp:1363-1373 | the window's extreme columns are inside, and the next ones out on each side are outside |
| RulerGeometry.ClampToUsable | src/AdornedRulerPanel.cpp:1850-1856 | the pointer column is kept in the usable track area: unchanged inside it, moved to the nearer bound outside it |
| Regions.PlayRegion.Order | src/AdornedRulerPanel.cpp:1630 | ordering the region puts start before end, keeps both bounds (as a multiset) and keeps the lock |
| Regions.Mirror | src/AdornedRulerPanel.cpp:1932-1939 | the selection dragged along with the region is ordered and consists of exactly the region's two bounds, whichever way round they are |
| Playback.PlaySpan | src/AdornedRulerPanel.cpp:1716-1733 | looping an empty region plays the selection when its point is strictly inside it, and the tracks' extent otherwise; everything else plays the region's bounds |
| Playback.Decide | src/AdornedRulerPanel.cpp:1702-1769 | no playback iff the region start is unset; the span is `PlaySpan`; loops iff looping was asked for and the span exceeds 0.001 s; cut preview iff asked for and not effectively looping; the start-time hint is given exactly when not previewing the cut |
| Playback.DecideAsWritten | src/AdornedRulerPanel.cpp:1735-1751 | the decision as the source writes it: looping depends on an indeterminate value, not on the `looped` argument |
| Playback.LoopFlagIgnoredAsWritten | src/AdornedRulerPanel.cpp:1738 | on region [1, 3], a plain click can loop and a looped click can play once as written; the corrected decision does the opposite in each case |
| Playback.DecideIsAsWrittenWithArgument | src/AdornedRulerPanel.cpp:1735-1751 | the corrected decision is the as-written one with the argument in place of the indeterminate value |
| Playback.LoopPointInsideSelection | src/AdornedRulerPanel.cpp:1719-1724 | looping a point inside the selection [2, 4] loops the whole selection, starting at the point |
| QuickPlay.SetPlayRegion | src/AdornedRulerPanel.cpp:2199-2213 | no change during a gesture; otherwise only the region's bounds are set |
| QuickPlay.ClearPlayRegion | src/AdornedRulerPanel.cpp:2215-2224 | stops the transport and unsets both bounds, keeping the lock; nothing else changes |
| QuickPlay.DoSelectionChange | src/AdornedRulerPanel.cpp:1285-1294 | an inactive region follows the new selection exactly, except during a gesture; an active one is untouched |
| QuickPlay.DragSelection | src/AdornedRulerPanel.cpp:1932-1939 | the selection becomes the mirror of the region; during a gesture nothing else changes |
| QuickPlay.UpdateQuickPlayPos | src/AdornedRulerPanel.cpp:1850-1867 | the column is clamped into the usable area and returned; the unsnapped time is the clamped column's time; the snapped time and flag come from snapping; in the quick-play zone without shift the time is capped at the tracks' end; only these three fields change |
| QuickPlay.HandleQPClick | src/AdornedRulerPanel.cpp:1408-1443 | the click time is remembered; the state is dragging the start (or end) iff the pointer is at an old edge of a non-empty region and the start is strictly (not) nearer; otherwise it is a pending click; a locked region is unlocked on a left-down; nothing else changes |
| QuickPlay.DragIdle | src/AdornedRulerPanel.cpp:1474-1482 | with no gesture, only the quick-play time changes: away from the old edges it stays; at one it snaps to the nearer old edge, the end on a tie |
| QuickPlay.DragStart | src/AdornedRulerPanel.cpp:1483-1496 | dragging the start: dragging latches when the pointer leaves the old start; the new start is the old end when near it, the old start before latching, else the pointer time; the selection follows when allowed |
| QuickPlay.DragEnd | src/AdornedRulerPanel.cpp:1497-1510 | the mirror image of `DragStart` for the end edge |
| QuickPlay.DragClick | src/AdornedRulerPanel.cpp:1511-1521 | a pending click collapses the region to the click while the pointer stays there (or no click time exists); otherwise it becomes a range sweep and nothing else changes |
| QuickPlay.DragRange | src/AdornedRulerPanel.cpp:1522-1534 | a range sweep sets the region to the click and the pointer time in order, snapping the pointer back to the click near it; the selection follows when allowed |
| QuickPlay.FollowSelection | src/AdornedRulerPanel.cpp:1493-1495 | during a gesture, the selection becomes the mirror of the region when dragging the selection is allowed, and otherwise stays; nothing else changes |
| QuickPlay.EdgeTarget | src/AdornedRulerPanel.cpp:1484-1491 | an edge drag lands on the other old edge when the pointer is near it; otherwise on its own old edge before latching, else at the pointer time |
| QuickPlay.HandleQPDrag | src/AdornedRulerPanel.cpp:1461-1538 | one drag step per state, as in the five rows above (idle: the nearer old edge, the end on a tie); the snapshot, click, snapping, transport and lock never change; dragging only latches on; the only state change is click to range sweep; a sweep leaves the region ordered and made of the click and the pointer time |
| QuickPlay.ReleaseClears | src/AdornedRulerPanel.cpp:1640-1660 | with shift on an empty region: cleared iff the selection lies wholly outside the tracks and the point is outside them; otherwise, for an ordered region: kept iff it starts before the tracks' end and is a point or reaches the tracks' start |
| QuickPlay.ReleaseKeepsPrerollAndPostroll | src/AdornedRulerPanel.cpp:1638-1660 | the release keeps a region that starts before the tracks' end and reaches their start (pre-roll and post-roll allowed), and drops one starting at or after their end; with shift, a point inside the tracks is kept |
| QuickPlay.StartQPPlay | src/AdornedRulerPanel.cpp:1702-1769 | with the start unset nothing happens; otherwise the transport gets a stop and then the decided play request, and the region shows the played span |
| QuickPlay.ApplyReleasePolicy | src/AdornedRulerPanel.cpp:1628-1660 | the region is ordered, then cleared (with a transport stop) exactly when the release policy says so |
| QuickPlay.RestoreLockedRegion | src/AdornedRulerPanel.cpp:1666-1674 | a region locked at mouse-down is put back with its bounds and lock, and the local lock is released; otherwise nothing changes |
| QuickPlay.HandleQPRelease | src/AdornedRulerPanel.cpp:1626-1677 | the gesture ends with no click time; the selection is kept; the transport gets just a stop when the region is cleared, a stop and the decided play when it is kept and set, nothing otherwise; an unlocked region ends cleared or showing the played span; a locked one is restored exactly |
| QuickPlay.Click | src/AdornedRulerPanel.cpp:1376-1406 | records the button; a left click pauses a marked scrub, snapshots region and selection, and leaves a gesture under way with the lock cleared on a left-down; a right click changes nothing else |
| QuickPlay.Drag | src/AdornedRulerPanel.cpp:1445-1459 | only a left gesture reacts; the snapshot and lock are kept; a gesture under way stays under way; the handle's column is the clamped pointer column |
| QuickPlay.Release | src/AdornedRulerPanel.cpp:1600-1624 | a left gesture is released as `HandleQPRelease` says, and the resulting region becomes the hover snapshot |
| QuickPlay.Cancel | src/AdornedRulerPanel.cpp:1679-1699 | a left gesture ends with the snapshot's selection, the snapshot's bounds and the lock put back; the transport is untouched |
| QuickPlay.DragAllKeepsSnapshot | src/AdornedRulerPanel.cpp:1445-1538 | any sequence of moves keeps what mouse-down recorded: gesture under way, region and selection snapshots, no lock gained |
| QuickPlay.CancelRestoresPreGestureState | src/AdornedRulerPanel.cpp:1679-1699 | a mouse-down, any moves, then cancel leave the play region (bounds and lock) and the selection exactly as before the gesture, with no gesture under way |
| QuickPlay.CancelKeepsLatch | src/AdornedRulerPanel.cpp:1679-1699 | cancel leaves a set drag latch set (release resets it, cancel does not), and the next mouse-down keeps it, so the next edge drag starts latched |
| QuickPlay.DraggingLatches | src/AdornedRulerPanel.cpp:1483-1510 | once an edge drag has latched, it stays latched through any further moves |
| QuickPlay.RangeSweepStaysOrdered | src/AdornedRulerPanel.cpp:1511-1534 | a range sweep stays a sweep and keeps the region ordered through any non-empty sequence of moves |
| RulerPanel.AdornedRulerPanel.constructor | src/AdornedRulerPanel.cpp:919-984 | a new panel has no gesture, no click, nothing snapped, no transport requests and an unset, unlocked snapshot region; an inactive region is brought to the selection at once |
| RulerPanel.AdornedRulerPanel.SetPlayRegion | src/AdornedRulerPanel.cpp:2199-2213 | updates the fields as `QuickPlay.SetPlayRegion` |
| RulerPanel.AdornedRulerPanel.ClearPlayRegion | src/AdornedRulerPanel.cpp:2215-2224 | updates the fields as `QuickPlay.ClearPlayRegion` |
| RulerPanel.AdornedRulerPanel.DoSelectionChange | src/AdornedRulerPanel.cpp:1285-1294 | updates the fields as `QuickPlay.DoSelectionChange` |
| RulerPanel.AdornedRulerPanel.DragSelection | src/AdornedRulerPanel.cpp:1932-1939 | updates the fields as `QuickPlay.DragSelection` |
| RulerPanel.AdornedRulerPanel.UpdateQuickPlayPos | src/AdornedRulerPanel.cpp:1850-1867 | updates the fields and returns the clamped column as `QuickPlay.UpdateQuickPlayPos` |
| RulerPanel.AdornedRulerPanel.HandleQPClick | src/AdornedRulerPanel.cpp:1408-1443 | updates the fields as `QuickPlay.HandleQPClick` |
| RulerPanel.AdornedRulerPanel.HandleQPDrag | src/AdornedRulerPanel.cpp:1461-1538 | updates the fields as `QuickPlay.HandleQPDrag` |
| RulerPanel.AdornedRulerPanel.DragIdle | src/AdornedRulerPanel.cpp:1474-1482 | updates the fields as `QuickPlay.DragIdle` |
| RulerPanel.AdornedRulerPanel.DragStart | src/AdornedRulerPanel.cpp:1483-1496 | updates the fields as `QuickPlay.DragStart` |
| RulerPanel.AdornedRulerPanel.DragEnd | src/AdornedRulerPanel.cpp:1497-1510 | updates the fields as `QuickPlay.DragEnd` |
| RulerPanel.AdornedRulerPanel.DragClick | src/AdornedRulerPanel.cpp:1511-1521 | updates the fields as `QuickPlay.DragClick` |
| RulerPanel.AdornedRulerPanel.DragRange | src/AdornedRulerPanel.cpp:1522-1534 | updates the fields as `QuickPlay.DragRange` |
| RulerPanel.AdornedRulerPanel.FollowSelection | src/AdornedRulerPanel.cpp:1493-1495 | updates the fields as `QuickPlay.FollowSelection` |
| RulerPanel.AdornedRulerPanel.StartQPPlay | src/AdornedRulerPanel.cpp:1702-1769 | updates the fields as `QuickPlay.StartQPPlay` |
| RulerPanel.AdornedRulerPanel.HandleQPRelease | src/AdornedRulerPanel.cpp:1626-1677 | updates the fields as `QuickPlay.HandleQPRelease` |
| RulerPanel.AdornedRulerPanel.ApplyReleasePolicy | src/AdornedRulerPanel.cpp:1628-1660 | updates the fields as `QuickPlay.ApplyReleasePolicy` |
| RulerPanel.AdornedRulerPanel.RestoreLockedRegion | src/AdornedRulerPanel.cpp:1666-1674 | updates the fields as `QuickPlay.RestoreLockedRegion` |
| RulerPanel.QPHandle.constructor | src/AdornedRulerPanel.cpp:545-548 | a new handle belongs to its panel, records the column and has no button |
| RulerPanel.QPHandle.Click | src/AdornedRulerPanel.cpp:1376-1406 | updates handle and panel as `QuickPlay.Click` |
| RulerPanel.QPHandle.Drag | src/AdornedRulerPanel.cpp:1445-1459 | updates handle and panel as `QuickPlay.Drag` |
| RulerPanel.QPHandle.Release | src/AdornedRulerPanel.cpp:1600-1624 | updates the panel as `QuickPlay.Release` |
| RulerPanel.QPHandle.Cancel | src/AdornedRulerPanel.cpp:1679-1699 | updates the panel as `QuickPlay.Cancel` |
| Overlays.UpdateRuler | src/AdornedRulerPanel.cpp:293-328 | the indicator is hidden while the transport runs or the pointer is off the ruler (unless scrubbing), and at or past the later of the tracks' end and the selection's end; otherwise it is at the quick-play time, with the scrub shape iff no other drag is running and the pointer is in the scrub zone or a scrub is marked, and the seek shape only together with the scrub shape; the drawn state is untouched |
| Overlays.DrawRuler | src/AdornedRulerPanel.cpp:365-370 | the drawn state becomes the new state, which is unchanged |
| Overlays.RulerRectangle | src/AdornedRulerPanel.cpp:336-363 | a redraw is asked for iff drawing would change the remembered state while the indicator is shown before or after; the rectangle is empty while nothing was drawn, and otherwise covers the big indicator around the drawn column over the full height |
| Overlays.RulerDrawnIsClean | src/AdornedRulerPanel.cpp:336-370 | right after drawing, no redraw is asked for |
| Overlays.RulerSettles | src/AdornedRulerPanel.cpp:293-370 | with unchanged inputs, an update after drawing asks for no redraw |
| Overlays.UpdateGuideline | src/AdornedRulerPanel.cpp:397-409 | the guideline previews a scrub iff the pointer is in the scrub zone and no scrub runs; it takes the snap colour iff the time snapped; the drawn state is untouched |
| Overlays.DrawGuideline | src/AdornedRulerPanel.cpp:425-430 | the drawn position becomes the ruler indicator's new position, and the drawn flags become the new flags |
| Overlays.GuidelineRectangle | src/AdornedRulerPanel.cpp:411-423 | a one-pixel column at the drawn position over the full height; a redraw is asked for iff drawing would change the remembered state |
| Overlays.GuidelineDrawnIsClean | src/AdornedRulerPanel.cpp:411-430 | right after drawing, no redraw is asked for until the partner's position or the flags move |
| Overlays.ScrubbingRulerOverlay.constructor | src/AdornedRulerPanel.cpp:216-236 | a new indicator is hidden, both new and drawn, with neither shape |
| Overlays.ScrubbingRulerOverlay.Update | src/AdornedRulerPanel.cpp:293-328 | updates the fields as `Overlays.UpdateRuler` |
| Overlays.ScrubbingRulerOverlay.DoGetRectangle | src/AdornedRulerPanel.cpp:336-363 | updates first, then returns `Overlays.RulerRectangle` of the updated state |
| Overlays.ScrubbingRulerOverlay.Draw | src/AdornedRulerPanel.cpp:365-370 | updates the fields as `Overlays.DrawRuler` |
| Overlays.TrackPanelGuidelineOverlay.constructor | src/AdornedRulerPanel.cpp:265-273 | a new guideline has a fresh, hidden partner indicator and is itself hidden with no flags |
| Overlays.TrackPanelGuidelineOverlay.Update | src/AdornedRulerPanel.cpp:397-409 | updates the fields as `Overlays.UpdateGuideline` |
| Overlays.TrackPanelGuidelineOverlay.DoGetRectangle | src/AdornedRulerPanel.cpp:411-423 | updates first, then returns `Overlays.GuidelineRectangle` against the partner's new position |
| Overlays.TrackPanelGuidelineOverlay.Draw | src/AdornedRulerPanel.cpp:425-430 | updates the fields as `Overlays.DrawGuideline` with the partner's new position |
| Scrubbing.StartScrubbingMessage | src/AdornedRulerPanel.cpp:1102-1124 | the start message differs from each of the three messages shown once a scrub is marked |
| Scrubbing.ContinueScrubbingMessage | src/AdornedRulerPanel.cpp:1126-1156 | never the start message; with the button up, the move-to-scrub message; with it down, the stop-seeking message iff a scrub or seek runs, and the release-and-move message otherwise |
| Scrubbing.ScrubbingMessage | src/AdornedRulerPanel.cpp:1158-1164 | the start message iff no scrub is marked; with a mark, each combination of button down and scrub running gets its own message |
| Scrubbing.ScrubbingHandle.constructor | src/AdornedRulerPanel.cpp:762-766 | a new handle records its column and has no button |
| Scrubbing.ScrubbingHandle.Click | src/AdornedRulerPanel.cpp:769-792 | records the button; a left click is cancelled iff scrubbing is not allowed now; a scrub start is marked at the event's column, unpinned or pinned per the preference and not seeking, iff the click is left, allowed and nothing is marked yet |

## Left out

- Painting is not modelled: device contexts, colours, bitmaps, the play-region and scrub-indicator drawing, and the guideline's pen choice.
- Not modelled: the menus, tool tips, preferences (the pinned-head and drag-selection settings are parameters) and buttons.
- Not modelled: `UpdateRects` and the cell layout; pointer hit-testing is reduced to the `qpCellTargeted` and `inScrubCell` inputs.
- The playhead handle, the handles' `Preview` (cursor and status feedback) and the scrubber's polling are not modelled.
- The audio engine is not modelled. Playback options, envelopes and the event yield inside stopping playback become entries of the `transport` sequence.
- Audio start/stop events and idle processing are not modelled.
- `PlayRegion`, `SelectedRegion` and the selection utilities belong to the view model and are not part of this model. Their bodies here are assumptions:
  - a region is empty when its end is not after its start;
  - activating a region only sets its flag; the flag updates in `HandleQPClick`, the release and the cancel stand for the selection utilities' inactivate and activate calls;
  - the region's getters read its two bounds and its flag, and copying a region (the mouse-down snapshot, the release's hover snapshot) copies those three and nothing else;
  - moving one selection edge either swaps the edges or pushes the other edge along, as the `maySwap` argument says.
- The selection-change event is modelled as a direct call to `DoSelectionChange` after each selection change the ruler makes.
- The tracks' extent, the time/pixel mappings and snapping are parameters. The tracks' extent is passed to release and playback as `t0`, `t1`.
- Times are `real`. Floating-point rounding is not modelled.
- Pixel columns are unbounded integers. 32-bit overflow is not modelled.
- The quick-play handle (src/AdornedRulerPanel.cpp:540-569), `HandleQPClick`/`HandleQPDrag` and the handle's Click and Drag (1375-1539), and `HandleQPRelease` with the handle's Release and Cancel (1556-1700) sit under `QUICK_PLAY_HANDLE`, which is undefined at line 539. They are compiled out of the shipped build, and the model still models them as written. `StartQPPlay` (1702-1769) is compiled, but its only caller is `HandleQPRelease` (1676), so it is dead code in that build. The quick-play cell itself is compiled (691-720); only its `Clicked()` is reduced to `false` (707-712). The model keeps that test as the `qpCellTargeted` input.
- The panel's header (`AdornedRulerPanel.h`) is not part of this model. The panel's constructor here starts the quick-play times and the click time unset. The default-constructed snapshot region is assumed unset and unlocked.
- `QPHandle.Release` keeps the handle alive across the event yield (src/AdornedRulerPanel.cpp:1606-1609). Object lifetime is not modelled.
- Scrubbing.ScrubbingHandle.Click: the parent panel is taken to be present, so the source's null-parent test is not modelled.
- RulerPanel.QPHandle.Click: the parent panel is taken to be present, so the source's early `Cancelled` for a missing parent (src/AdornedRulerPanel.cpp:1382-1383) is not modelled; the same holds for the parent tests of the handle's Release and Cancel.

## Findings

| source | as written | input that shows it | evidently intended | confidence | as-written member | corrected member |
|---|---|---|---|---|---|---|
| src/AdornedRulerPanel.cpp:1738 | `bool looped = (loopEnabled && looped);` declares a new `looped` whose initializer reads itself. In C++ a name is in scope from its declarator, so the parameter `looped` is shadowed and the flag is indeterminate | region [1, 3] (non-empty), selection [0, 0], tracks [0, 10], no shift: the play may come out looped; with shift it may come out played once | loop iff the `looped` argument is set and the span exceeds 0.001 s | high; not executed | Playback.DecideAsWritten (counterexample: Playback.LoopFlagIgnoredAsWritten) | Playback.Decide |
