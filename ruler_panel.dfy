/**
 * The ruler panel and its quick-play handle as objects whose methods
 * update their fields in place, each proved to do what the functions of
 * module QuickPlay specify.
 */
module RulerPanel {
  import opened Wrappers
  import opened RulerGeometry
  import opened Regions
  import opened Playback
  import opened QuickPlay

  class AdornedRulerPanel {
    var mouseEventState: MouseEventState
    var isDragging: bool
    var leftDownClick: real
    var leftDownClickUnsnapped: real
    var quickPlayPos: real
    var quickPlayPosUnsnapped: real
    var isSnapped: bool
    /** The play region as it was when the gesture began. */
    var oldPlayRegion: PlayRegion
    var playRegionDragsSelection: bool
    /** The project's play region and selection, which the panel shares with the rest of the editor. */
    var playRegion: PlayRegion
    var selectedRegion: SelectedRegion
    /** Requests sent to the transport so far. */
    var transport: seq<TransportRequest>

    /** The panel's state as a value. */
    function Model(): Ruler
      reads this
    {
      Ruler(mouseEventState, isDragging, leftDownClick, leftDownClickUnsnapped, quickPlayPos,
            quickPlayPosUnsnapped, isSnapped, oldPlayRegion, playRegionDragsSelection,
            playRegion, selectedRegion, transport)
    }

    /**
     * A new panel: no gesture, no click, nothing snapped; an inactive play
     * region is brought to the selection at once.
     */
    constructor (selection: SelectedRegion, region: PlayRegion, dragsSelection: bool)
      ensures mouseEventState == Idle && !isDragging && leftDownClick == Unset && !isSnapped
      ensures selectedRegion == selection && transport == []
      ensures playRegionDragsSelection == dragsSelection
      ensures playRegion == (if region.active then region else PlayRegion(selection.t0, selection.t1, false))
      ensures oldPlayRegion == PlayRegion(Unset, Unset, false)
    {
      leftDownClick := Unset;
      mouseEventState := Idle;
      isDragging := false;
      isSnapped := false;
      playRegionDragsSelection := dragsSelection;
      quickPlayPos, quickPlayPosUnsnapped, leftDownClickUnsnapped := Unset, Unset, Unset;
      oldPlayRegion := PlayRegion(Unset, Unset, false);
      playRegion := region;
      selectedRegion := selection;
      transport := [];
      new;
      DoSelectionChange(selection);
    }

    method SetPlayRegion(s: real, e: real)
      modifies this
      ensures Model() == QuickPlay.SetPlayRegion(old(Model()), s, e)
    {
      // Ignored unless the gesture state is Idle
      if mouseEventState != Idle {
        return;
      }
      playRegion := playRegion.SetTimes(s, e);
    }

    method ClearPlayRegion()
      modifies this
      ensures Model() == QuickPlay.ClearPlayRegion(old(Model()))
    {
      transport := transport + [Stop];
      playRegion := playRegion.SetTimes(Unset, Unset);
    }

    method DoSelectionChange(sel: SelectedRegion)
      modifies this
      ensures Model() == QuickPlay.DoSelectionChange(old(Model()), sel)
    {
      // Only an unlocked region takes the new selection's bounds
      if !playRegion.active {
        SetPlayRegion(sel.t0, sel.t1);
      }
    }

    method DragSelection()
      modifies this
      ensures Model() == QuickPlay.DragSelection(old(Model()))
    {
      selectedRegion := selectedRegion.SetT0(playRegion.start, false);
      selectedRegion := selectedRegion.SetT1(playRegion.end, true);
      DoSelectionChange(selectedRegion);
    }

    /** Tracks the pointer; returns the column clamped into the usable width. */
    method UpdateQuickPlayPos(mousePosX: int, shiftDown: bool, qpCellTargeted: bool, v: View) returns (x: int)
      modifies this
      ensures (Model(), x) == QuickPlay.UpdateQuickPlayPos(old(Model()), mousePosX, shiftDown, qpCellTargeted, v)
    {
      x := Max(mousePosX, v.leftOffset);
      x := Min(x, v.leftOffset + v.usableWidth - 1);
      quickPlayPos := v.pos2Time(x);
      quickPlayPosUnsnapped := quickPlayPos;
      // The snap outcome supplies both the time and the snapped flag
      var result := v.snap(quickPlayPos, selectedRegion);
      quickPlayPos := result.time;
      isSnapped := result.snapped;
      // In the quick-play zone with shift up, cap the time at the tracks' end
      if qpCellTargeted && !shiftDown {
        quickPlayPos := RMin(v.trackEnd, quickPlayPos);
      }
    }

    method HandleQPClick(leftDown: bool, mousePosX: int, time2Pos: real -> int)
      modifies this
      ensures Model() == QuickPlay.HandleQPClick(old(Model()), leftDown, mousePosX, time2Pos)
    {
      // A left-down clears the lock for the rest of the gesture
      if oldPlayRegion.active && leftDown {
        playRegion := playRegion.SetActive(false);
      }
      leftDownClickUnsnapped, leftDownClick := quickPlayPosUnsnapped, quickPlayPos;
      var isWithinStart := IsWithinMarker(mousePosX, oldPlayRegion.start, time2Pos);
      var isWithinEnd := IsWithinMarker(mousePosX, oldPlayRegion.end, time2Pos);
      var state := SelectingClick;
      // An empty old region gives a pending click even at its edge
      if (isWithinStart || isWithinEnd) && !oldPlayRegion.Empty() {
        // The nearer edge is decided in pixels
        var start := oldPlayRegion.start;
        var end := oldPlayRegion.end;
        if Abs(time2Pos(quickPlayPos) - time2Pos(start)) < Abs(time2Pos(quickPlayPos) - time2Pos(end)) {
          state := DraggingStart;
        } else {
          state := DraggingEnd;
        }
      }
      mouseEventState := state;
    }

    /** One drag step at column mousePosX; each gesture state has its own step below. */
    method HandleQPDrag(mousePosX: int, time2Pos: real -> int)
      modifies this
      ensures Model() == QuickPlay.HandleQPDrag(old(Model()), mousePosX, time2Pos)
    {
      match mouseEventState {
        case Idle => DragIdle(mousePosX, time2Pos);
        case DraggingStart => DragStart(mousePosX, time2Pos);
        case DraggingEnd => DragEnd(mousePosX, time2Pos);
        case SelectingClick => DragClick(mousePosX, time2Pos);
        case SelectingRange => DragRange(mousePosX, time2Pos);
      }
    }

    method DragIdle(mousePosX: int, time2Pos: real -> int)
      modifies this
      ensures Model() == QuickPlay.DragIdle(old(Model()), mousePosX, time2Pos)
    {
      // Inside either old edge's window: take the nearer edge, the end on a tie
      if IsWithinMarker(mousePosX, oldPlayRegion.start, time2Pos) || IsWithinMarker(mousePosX, oldPlayRegion.end, time2Pos) {
        if RAbs(quickPlayPos - oldPlayRegion.start) < RAbs(quickPlayPos - oldPlayRegion.end) {
          quickPlayPos := oldPlayRegion.start;
        } else {
          quickPlayPos := oldPlayRegion.end;
        }
      }
    }

    method DragStart(mousePosX: int, time2Pos: real -> int)
      requires mouseEventState == DraggingStart
      modifies this
      ensures Model() == QuickPlay.DragStart(old(Model()), mousePosX, time2Pos)
    {
      var isWithinStart := IsWithinMarker(mousePosX, oldPlayRegion.start, time2Pos);
      var isWithinEnd := IsWithinMarker(mousePosX, oldPlayRegion.end, time2Pos);
      var pos, latched := quickPlayPos, isDragging;
      // Inside the old start's window and not yet latched: stay on the old start; else latch
      if !isDragging && isWithinStart {
        pos := oldPlayRegion.start;
      } else {
        latched := true;
      }
      // Inside the old end's window: land on the old end
      if isWithinEnd {
        pos := oldPlayRegion.end;
      }
      isDragging, quickPlayPos, playRegion := latched, pos, playRegion.SetStart(pos);
      assert Model() == old(Model()).(isDragging := latched, quickPlayPos := pos, playRegion := old(playRegion).SetStart(pos));
      FollowSelection(!oldPlayRegion.active && playRegionDragsSelection);
    }

    method DragEnd(mousePosX: int, time2Pos: real -> int)
      requires mouseEventState == DraggingEnd
      modifies this
      ensures Model() == QuickPlay.DragEnd(old(Model()), mousePosX, time2Pos)
    {
      var isWithinStart := IsWithinMarker(mousePosX, oldPlayRegion.start, time2Pos);
      var isWithinEnd := IsWithinMarker(mousePosX, oldPlayRegion.end, time2Pos);
      var pos, latched := quickPlayPos, isDragging;
      if !isDragging && isWithinEnd {
        pos := oldPlayRegion.end;
      } else {
        latched := true;
      }
      if isWithinStart {
        pos := oldPlayRegion.start;
      }
      isDragging, quickPlayPos, playRegion := latched, pos, playRegion.SetEnd(pos);
      assert Model() == old(Model()).(isDragging := latched, quickPlayPos := pos, playRegion := old(playRegion).SetEnd(pos));
      FollowSelection(!oldPlayRegion.active && playRegionDragsSelection);
    }

    /** During a gesture, drags the selection along when allowed. */
    method FollowSelection(canDragSel: bool)
      requires mouseEventState != Idle
      modifies this
      ensures Model() == QuickPlay.FollowSelection(old(Model()), canDragSel)
    {
      if canDragSel {
        DragSelection();
      }
    }

    method DragClick(mousePosX: int, time2Pos: real -> int)
      modifies this
      ensures Model() == QuickPlay.DragClick(old(Model()), mousePosX, time2Pos)
    {
      var isWithinClick := leftDownClickUnsnapped >= 0.0 && IsWithinMarker(mousePosX, leftDownClickUnsnapped, time2Pos);
      // The click holds while the pointer is in its window or there is no click time
      if isWithinClick || leftDownClick == Unset {
        quickPlayPos := leftDownClick;
        playRegion := playRegion.SetTimes(leftDownClick, leftDownClick);
      } else {
        mouseEventState := SelectingRange;
      }
    }

    method DragRange(mousePosX: int, time2Pos: real -> int)
      requires mouseEventState == SelectingRange
      modifies this
      ensures Model() == QuickPlay.DragRange(old(Model()), mousePosX, time2Pos)
    {
      var pos := quickPlayPos;
      // Inside the click's window: the sweep collapses onto the click
      if leftDownClickUnsnapped >= 0.0 && IsWithinMarker(mousePosX, leftDownClickUnsnapped, time2Pos) {
        pos := leftDownClick;
      }
      var region := if pos < leftDownClick then playRegion.SetTimes(pos, leftDownClick)
                    else playRegion.SetTimes(leftDownClick, pos);
      quickPlayPos, playRegion := pos, region;
      FollowSelection(!oldPlayRegion.active && playRegionDragsSelection);
    }

    method StartQPPlay(looped: bool, cutPreview: bool, t0: real, t1: real)
      modifies this
      ensures Model() == QuickPlay.StartQPPlay(old(Model()), looped, cutPreview, t0, t1)
    {
      var decision := Decide(playRegion, selectedRegion, t0, t1, looped, cutPreview);
      if decision.Some? {
        // The stop request precedes the play request
        transport := transport + [Stop];
        playRegion := playRegion.SetTimes(decision.value.start, decision.value.end);
        transport := transport + [Play(decision.value)];
      }
    }

    method HandleQPRelease(shiftDown: bool, controlDown: bool, t0: real, t1: real)
      modifies this
      ensures Model() == QuickPlay.HandleQPRelease(old(Model()), shiftDown, controlDown, t0, t1)
    {
      ApplyReleasePolicy(shiftDown, t0, t1);
      mouseEventState := Idle;
      isDragging := false;
      leftDownClick := Unset;
      StartQPPlay(shiftDown, controlDown, t0, t1);
      RestoreLockedRegion();
    }

    /** Orders the region and clears it when it holds nothing worth playing. */
    method ApplyReleasePolicy(shiftDown: bool, t0: real, t1: real)
      modifies this
      ensures Model() == QuickPlay.ApplyReleasePolicy(old(Model()), shiftDown, t0, t1)
    {
      playRegion := playRegion.Order();
      var sel0, sel1 := selectedRegion.t0, selectedRegion.t1;
      if shiftDown && playRegion.Empty() {
        // Shift on an empty region: cleared when selection and point both lie outside the tracks
        if (sel1 < t0 || sel0 > t1) && (playRegion.start < t0 || playRegion.start > t1) {
          ClearPlayRegion();
        }
      } else if playRegion.start >= t1 {
        // Starts at or after the tracks' end
        ClearPlayRegion();
      } else if playRegion.end - playRegion.start > 0.0 && playRegion.end < t0 {
        // Non-empty and ending before the tracks start
        ClearPlayRegion();
      }
    }

    /** After release: a region locked at mouse-down gets its bounds back and is locked again. */
    method RestoreLockedRegion()
      requires mouseEventState == Idle
      modifies this
      ensures Model() == QuickPlay.RestoreLockedRegion(old(Model()), old(oldPlayRegion))
    {
      if oldPlayRegion.active {
        SetPlayRegion(oldPlayRegion.start, oldPlayRegion.end);
        playRegion := playRegion.SetActive(true);
        // The snapshot's lock is dropped
        oldPlayRegion := oldPlayRegion.SetActive(false);
      }
    }
  }

  /** The handle of one quick-play gesture on the ruler. */
  class QPHandle {
    const parent: AdornedRulerPanel
    var clicked: Button
    var x: int
    /** The selection at mouse-down, restored on cancel. */
    var oldSelection: SelectedRegion

    function Model(): Gesture
      reads this, parent
    {
      Gesture(parent.Model(), Handle(clicked, x, oldSelection))
    }

    constructor (p: AdornedRulerPanel, xx: int)
      ensures parent == p && clicked == NoButton && x == xx
    {
      parent := p;
      x := xx;
      clicked := NoButton;
    }

    method Click(leftIsDown: bool, leftDown: bool, hasMark: bool, time2Pos: real -> int)
      modifies this, parent
      ensures Model() == QuickPlay.Click(old(Model()), leftIsDown, leftDown, hasMark, time2Pos)
    {
      clicked := if leftIsDown then Left else Right;
      if clicked == Left {
        if hasMark {
          // A marked scrub gets a pause request
          parent.transport := parent.transport + [Pause];
        }
        parent.oldPlayRegion := parent.playRegion;
        oldSelection := parent.selectedRegion;
        parent.HandleQPClick(leftDown, x, time2Pos);
        parent.HandleQPDrag(x, time2Pos);
      }
    }

    method Drag(m: Move)
      modifies this, parent
      ensures Model() == QuickPlay.Drag(old(Model()), m)
    {
      if clicked == Left {
        x := parent.UpdateQuickPlayPos(m.x, m.shiftDown, m.qpCellTargeted, m.view);
        parent.HandleQPDrag(x, m.view.time2Pos);
      }
    }

    method Release(shiftDown: bool, controlDown: bool, t0: real, t1: real)
      modifies parent
      ensures Model() == QuickPlay.Release(old(Model()), shiftDown, controlDown, t0, t1)
    {
      if clicked == Left {
        parent.HandleQPRelease(shiftDown, controlDown, t0, t1);
        // The released region becomes the snapshot used for hover feedback
        parent.oldPlayRegion := parent.playRegion;
      }
    }

    method Cancel()
      modifies parent
      ensures Model() == QuickPlay.Cancel(old(Model()))
    {
      if clicked == Left {
        ghost var r := parent.Model();
        parent.selectedRegion := oldSelection;
        parent.DoSelectionChange(oldSelection);
        ghost var r1 := parent.Model();
        parent.mouseEventState := Idle;
        parent.SetPlayRegion(parent.oldPlayRegion.start, parent.oldPlayRegion.end);
        ghost var r2 := parent.Model();
        assert r2 == QuickPlay.SetPlayRegion(r1.(state := Idle), r.oldPlayRegion.start, r.oldPlayRegion.end);
        if parent.oldPlayRegion.active {
          // A region locked before the gesture is locked again; the snapshot's lock is dropped
          parent.playRegion, parent.oldPlayRegion :=
            parent.playRegion.SetActive(true), parent.oldPlayRegion.SetActive(false);
          assert parent.Model() == r2.(playRegion := r2.playRegion.SetActive(true),
                                       oldPlayRegion := r2.oldPlayRegion.SetActive(false));
        }
      }
    }
  }
}
