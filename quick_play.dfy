/**
 * The ruler's quick-play gesture, as functions on the panel's state: a
 * mouse-down chooses a gesture state, each drag moves one edge of the play
 * region or sweeps a new one, the release applies the validity policy and
 * starts playback, and a cancel restores what was there before.
 */
module QuickPlay {
  import opened Wrappers
  import opened RulerGeometry
  import opened Regions
  import opened Playback

  /** The gesture states (mesNone, mesDraggingPlayRegionStart, ... in the source). */
  datatype MouseEventState = Idle | DraggingStart | DraggingEnd | SelectingClick | SelectingRange

  /** Requests sent to the audio transport, in the order sent. */
  datatype TransportRequest = Stop | Pause | Play(request: PlayRequest)

  /** The snapping result for a candidate time: the adjusted time and whether it snapped. */
  datatype SnapOutcome = SnapOutcome(time: real, snapped: bool)

  /**
   * What the panel reads from the view at an event: the time/pixel
   * mappings, the usable track columns, snapping to the selection's edges,
   * and the tracks' extent.
   */
  datatype View = View(
    time2Pos: real -> int,
    pos2Time: int -> real,
    leftOffset: int,
    usableWidth: int,
    snap: (real, SelectedRegion) -> SnapOutcome,
    trackStart: real,
    trackEnd: real)

  /** The panel's gesture fields together with the project's play region, selection and transport. */
  datatype Ruler = Ruler(
    state: MouseEventState,
    isDragging: bool,
    leftDownClick: real,
    leftDownClickUnsnapped: real,
    quickPlayPos: real,
    quickPlayPosUnsnapped: real,
    isSnapped: bool,
    oldPlayRegion: PlayRegion,
    playRegionDragsSelection: bool,
    playRegion: PlayRegion,
    selection: SelectedRegion,
    transport: seq<TransportRequest>)

  // ---------------------------------------------------------------------
  // Updates of the play region from outside the gesture

  /** Sets the play region's bounds, unless a gesture is under way. */
  function SetPlayRegion(r: Ruler, s: real, e: real): (r': Ruler)
    ensures r.state != Idle ==> r' == r
    ensures r.state == Idle ==> r' == r.(playRegion := r.playRegion.SetTimes(s, e))
  {
    if r.state != Idle then r
    else r.(playRegion := r.playRegion.SetTimes(s, e))
  }

  /** Stops the transport and unsets both bounds of the play region, gesture or not. */
  function ClearPlayRegion(r: Ruler): (r': Ruler)
    ensures r'.transport == r.transport + [Stop]
    ensures r'.playRegion.start == Unset && r'.playRegion.end == Unset
    ensures r'.playRegion.active == r.playRegion.active
    ensures r' == r.(transport := r'.transport, playRegion := r'.playRegion)
  {
    r.(transport := r.transport + [Stop], playRegion := r.playRegion.SetTimes(Unset, Unset))
  }

  /** A change of selection: an inactive play region follows it, unless a gesture is under way. */
  function DoSelectionChange(r: Ruler, sel: SelectedRegion): (r': Ruler)
    ensures r.state != Idle || r.playRegion.active ==> r' == r
    ensures r.state == Idle && !r.playRegion.active ==>
      r' == r.(playRegion := PlayRegion(sel.t0, sel.t1, false))
  {
    if !r.playRegion.active then SetPlayRegion(r, sel.t0, sel.t1) else r
  }

  /** The selection dragged along with the play region, followed by its change notification. */
  function DragSelection(r: Ruler): (r': Ruler)
    ensures r'.selection == Mirror(r.playRegion, r.selection)
    ensures r.state != Idle ==> r' == r.(selection := r'.selection)
  {
    var sel := Mirror(r.playRegion, r.selection);
    DoSelectionChange(r.(selection := sel), sel)
  }

  // ---------------------------------------------------------------------
  // Pointer tracking

  /**
   * Moves the quick-play time to the pointer: the column is clamped into
   * the usable width (and returned), the time snapped, and, when the
   * pointer is in the quick-play zone and shift is up, capped at the end of
   * the tracks.
   */
  function UpdateQuickPlayPos(r: Ruler, x: int, shiftDown: bool, qpCellTargeted: bool, v: View): (res: (Ruler, int))
    ensures res.1 == ClampToUsable(x, v.leftOffset, v.usableWidth)
    ensures res.0.quickPlayPosUnsnapped == v.pos2Time(res.1)
    ensures res.0.isSnapped == v.snap(v.pos2Time(res.1), r.selection).snapped
    ensures qpCellTargeted && !shiftDown ==>
      res.0.quickPlayPos == RMin(v.trackEnd, v.snap(v.pos2Time(res.1), r.selection).time)
    ensures !(qpCellTargeted && !shiftDown) ==>
      res.0.quickPlayPos == v.snap(v.pos2Time(res.1), r.selection).time
    ensures qpCellTargeted && !shiftDown ==> res.0.quickPlayPos <= v.trackEnd
    ensures res.0 == r.(quickPlayPos := res.0.quickPlayPos, quickPlayPosUnsnapped := res.0.quickPlayPosUnsnapped,
                        isSnapped := res.0.isSnapped)
  {
    var x' := ClampToUsable(x, v.leftOffset, v.usableWidth);
    var t := v.pos2Time(x');
    var snapped := v.snap(t, r.selection);
    var pos := if qpCellTargeted && !shiftDown then RMin(v.trackEnd, snapped.time) else snapped.time;
    (r.(quickPlayPos := pos, quickPlayPosUnsnapped := t, isSnapped := snapped.snapped), x')
  }

  // ---------------------------------------------------------------------
  // Mouse-down

  /** The pointer is at either edge of the region as it was at mouse-down. */
  predicate NearOldEdge(r: Ruler, x: int, time2Pos: real -> int)
  {
    IsWithinMarker(x, r.oldPlayRegion.start, time2Pos) || IsWithinMarker(x, r.oldPlayRegion.end, time2Pos)
  }

  /** The quick-play time is strictly nearer, in pixels, to the old start than to the old end. */
  predicate StartIsNearer(r: Ruler, time2Pos: real -> int)
  {
    Abs(time2Pos(r.quickPlayPos) - time2Pos(r.oldPlayRegion.start))
      < Abs(time2Pos(r.quickPlayPos) - time2Pos(r.oldPlayRegion.end))
  }

  /**
   * Mouse-down: the play region is unlocked for the gesture, the click time
   * is remembered, and the state becomes dragging an edge when the pointer
   * is at an edge of a non-empty region (the start only when it is strictly
   * nearer), and a pending click otherwise.
   */
  function HandleQPClick(r: Ruler, leftDown: bool, x: int, time2Pos: real -> int): (r': Ruler)
    ensures r'.leftDownClick == r.quickPlayPos && r'.leftDownClickUnsnapped == r.quickPlayPosUnsnapped
    ensures r'.state == DraggingStart <==>
      NearOldEdge(r, x, time2Pos) && !r.oldPlayRegion.Empty() && StartIsNearer(r, time2Pos)
    ensures r'.state == DraggingEnd <==>
      NearOldEdge(r, x, time2Pos) && !r.oldPlayRegion.Empty() && !StartIsNearer(r, time2Pos)
    ensures r'.state == SelectingClick <==> !(NearOldEdge(r, x, time2Pos) && !r.oldPlayRegion.Empty())
    ensures r'.playRegion ==
      (if r.oldPlayRegion.active && leftDown then r.playRegion.SetActive(false) else r.playRegion)
    ensures r' == r.(state := r'.state, leftDownClick := r'.leftDownClick,
                     leftDownClickUnsnapped := r'.leftDownClickUnsnapped, playRegion := r'.playRegion)
  {
    var r1 := if r.oldPlayRegion.active && leftDown then r.(playRegion := r.playRegion.SetActive(false)) else r;
    var state :=
      if NearOldEdge(r, x, time2Pos) then
        if r.oldPlayRegion.Empty() then SelectingClick
        else if StartIsNearer(r, time2Pos) then DraggingStart
        else DraggingEnd
      else SelectingClick;
    r1.(leftDownClickUnsnapped := r.quickPlayPosUnsnapped, leftDownClick := r.quickPlayPos, state := state)
  }

  // ---------------------------------------------------------------------
  // Drag

  predicate WithinStart(r: Ruler, x: int, time2Pos: real -> int) { IsWithinMarker(x, r.oldPlayRegion.start, time2Pos) }
  predicate WithinEnd(r: Ruler, x: int, time2Pos: real -> int) { IsWithinMarker(x, r.oldPlayRegion.end, time2Pos) }

  /** The pointer is still at the (unsnapped) mouse-down time. */
  predicate WithinClick(r: Ruler, x: int, time2Pos: real -> int)
  {
    r.leftDownClickUnsnapped >= 0.0 && IsWithinMarker(x, r.leftDownClickUnsnapped, time2Pos)
  }

  /** A pending click stays a click: the pointer has not left it, or there is no click time. */
  predicate ClickHolds(r: Ruler, x: int, time2Pos: real -> int)
  {
    WithinClick(r, x, time2Pos) || r.leftDownClick == Unset
  }

  /** The selection is dragged along only with a region that was not locked at mouse-down. */
  predicate CanDragSelection(r: Ruler)
  {
    !r.oldPlayRegion.active && r.playRegionDragsSelection
  }

  predicate Dragging(s: MouseEventState)
  {
    s == DraggingStart || s == DraggingEnd
  }

  /** The fields a drag never touches. */
  predicate DragKeeps(r: Ruler, r': Ruler)
  {
    r'.oldPlayRegion == r.oldPlayRegion && r'.leftDownClick == r.leftDownClick &&
    r'.leftDownClickUnsnapped == r.leftDownClickUnsnapped &&
    r'.quickPlayPosUnsnapped == r.quickPlayPosUnsnapped && r'.isSnapped == r.isSnapped &&
    r'.playRegionDragsSelection == r.playRegionDragsSelection && r'.transport == r.transport &&
    r'.playRegion.active == r.playRegion.active
  }

  /** Idle: the quick-play time snaps to the nearer old edge when the pointer is at one; a tie goes to the end. */
  function DragIdle(r: Ruler, x: int, time2Pos: real -> int): (r': Ruler)
    ensures r' == r.(quickPlayPos := r'.quickPlayPos)
    ensures !NearOldEdge(r, x, time2Pos) ==> r'.quickPlayPos == r.quickPlayPos
    ensures NearOldEdge(r, x, time2Pos) ==>
      r'.quickPlayPos == r.oldPlayRegion.start || r'.quickPlayPos == r.oldPlayRegion.end
    ensures NearOldEdge(r, x, time2Pos) ==>
      r'.quickPlayPos == (if RAbs(r.quickPlayPos - r.oldPlayRegion.start) < RAbs(r.quickPlayPos - r.oldPlayRegion.end)
                          then r.oldPlayRegion.start else r.oldPlayRegion.end)
  {
    if WithinStart(r, x, time2Pos) || WithinEnd(r, x, time2Pos) then
      if RAbs(r.quickPlayPos - r.oldPlayRegion.start) < RAbs(r.quickPlayPos - r.oldPlayRegion.end)
      then r.(quickPlayPos := r.oldPlayRegion.start)
      else r.(quickPlayPos := r.oldPlayRegion.end)
    else r
  }

  /** During a gesture, the selection follows the region when allowed and nothing else changes. */
  function FollowSelection(r: Ruler, canDragSel: bool): (r': Ruler)
    requires r.state != Idle
    ensures r' == r.(selection := r'.selection)
    ensures r'.selection == (if canDragSel then Mirror(r.playRegion, r.selection) else r.selection)
  {
    if canDragSel then DragSelection(r) else r
  }

  /** The quick-play time an edge drag moves to. */
  function EdgeTarget(r: Ruler, withinOwn: bool, withinOther: bool, own: real, other: real): (t: real)
    ensures withinOther ==> t == other
    ensures !withinOther ==> t == (if !r.isDragging && withinOwn then own else r.quickPlayPos)
  {
    if withinOther then other else if !r.isDragging && withinOwn then own else r.quickPlayPos
  }

  /**
   * Drags the start edge: dragging latches on once the pointer leaves the
   * old start, and the start lands on the old end when near it.
   */
  function DragStart(r: Ruler, x: int, time2Pos: real -> int): (r': Ruler)
    requires r.state == DraggingStart
    ensures var t := EdgeTarget(r, WithinStart(r, x, time2Pos), WithinEnd(r, x, time2Pos),
                                r.oldPlayRegion.start, r.oldPlayRegion.end);
      r' == r.(quickPlayPos := t, isDragging := r.isDragging || !WithinStart(r, x, time2Pos),
               playRegion := r.playRegion.SetStart(t),
               selection := if CanDragSelection(r) then Mirror(r.playRegion.SetStart(t), r.selection) else r.selection)
  {
    // Inside the old start's window and not yet latched: stay on the old start; else latch
    var r1 := if !r.isDragging && WithinStart(r, x, time2Pos) then r.(quickPlayPos := r.oldPlayRegion.start)
              else r.(isDragging := true);
    // Inside the old end's window: land on the old end
    var r2 := if WithinEnd(r, x, time2Pos) then r1.(quickPlayPos := r.oldPlayRegion.end) else r1;
    FollowSelection(r2.(playRegion := r2.playRegion.SetStart(r2.quickPlayPos)), CanDragSelection(r))
  }

  /** Drags the end edge, symmetrically. */
  function DragEnd(r: Ruler, x: int, time2Pos: real -> int): (r': Ruler)
    requires r.state == DraggingEnd
    ensures var t := EdgeTarget(r, WithinEnd(r, x, time2Pos), WithinStart(r, x, time2Pos),
                                r.oldPlayRegion.end, r.oldPlayRegion.start);
      r' == r.(quickPlayPos := t, isDragging := r.isDragging || !WithinEnd(r, x, time2Pos),
               playRegion := r.playRegion.SetEnd(t),
               selection := if CanDragSelection(r) then Mirror(r.playRegion.SetEnd(t), r.selection) else r.selection)
  {
    var r1 := if !r.isDragging && WithinEnd(r, x, time2Pos) then r.(quickPlayPos := r.oldPlayRegion.end)
              else r.(isDragging := true);
    var r2 := if WithinStart(r, x, time2Pos) then r1.(quickPlayPos := r.oldPlayRegion.start) else r1;
    FollowSelection(r2.(playRegion := r2.playRegion.SetEnd(r2.quickPlayPos)), CanDragSelection(r))
  }

  /** Pending click: the region stays collapsed at the click until the pointer leaves it. */
  function DragClick(r: Ruler, x: int, time2Pos: real -> int): (r': Ruler)
    ensures ClickHolds(r, x, time2Pos) ==>
      r' == r.(quickPlayPos := r.leftDownClick, playRegion := r.playRegion.SetTimes(r.leftDownClick, r.leftDownClick))
    ensures !ClickHolds(r, x, time2Pos) ==> r' == r.(state := SelectingRange)
  {
    if ClickHolds(r, x, time2Pos) then
      r.(quickPlayPos := r.leftDownClick, playRegion := r.playRegion.SetTimes(r.leftDownClick, r.leftDownClick))
    else
      r.(state := SelectingRange)
  }

  /** Range sweep: the region spans the click and the quick-play time, in order. */
  function DragRange(r: Ruler, x: int, time2Pos: real -> int): (r': Ruler)
    requires r.state == SelectingRange
    ensures var pos := if WithinClick(r, x, time2Pos) then r.leftDownClick else r.quickPlayPos;
      r'.quickPlayPos == pos &&
      r'.playRegion == r.playRegion.SetTimes(RMin(pos, r.leftDownClick), RMax(pos, r.leftDownClick))
    ensures r' == r.(quickPlayPos := r'.quickPlayPos, playRegion := r'.playRegion, selection := r'.selection)
    ensures r'.selection == (if CanDragSelection(r) then Mirror(r'.playRegion, r.selection) else r.selection)
  {
    var pos := if WithinClick(r, x, time2Pos) then r.leftDownClick else r.quickPlayPos;
    var region := if pos < r.leftDownClick then r.playRegion.SetTimes(pos, r.leftDownClick)
                  else r.playRegion.SetTimes(r.leftDownClick, pos);
    FollowSelection(r.(quickPlayPos := pos, playRegion := region), CanDragSelection(r))
  }

  // Each drag step's effect, in the terms HandleQPDrag states it.

  lemma DragIdleEffect(r: Ruler, x: int, time2Pos: real -> int)
    ensures var r' := DragIdle(r, x, time2Pos);
      DragKeeps(r, r') && r'.state == r.state && r'.isDragging == r.isDragging &&
      r'.playRegion == r.playRegion && r'.selection == r.selection
  {
  }

  lemma DragStartEffect(r: Ruler, x: int, time2Pos: real -> int)
    requires r.state == DraggingStart
    ensures var r' := DragStart(r, x, time2Pos);
      DragKeeps(r, r') && r'.state == r.state &&
      r'.playRegion == r.playRegion.SetStart(r'.quickPlayPos) &&
      (r'.isDragging <==> r.isDragging || !WithinStart(r, x, time2Pos)) &&
      (WithinEnd(r, x, time2Pos) ==> r'.playRegion.start == r.oldPlayRegion.end) &&
      (!WithinEnd(r, x, time2Pos) ==>
         r'.playRegion.start == (if r'.isDragging then r.quickPlayPos else r.oldPlayRegion.start)) &&
      r'.selection == (if CanDragSelection(r) then Mirror(r'.playRegion, r.selection) else r.selection)
  {
  }

  lemma DragEndEffect(r: Ruler, x: int, time2Pos: real -> int)
    requires r.state == DraggingEnd
    ensures var r' := DragEnd(r, x, time2Pos);
      DragKeeps(r, r') && r'.state == r.state &&
      r'.playRegion == r.playRegion.SetEnd(r'.quickPlayPos) &&
      (r'.isDragging <==> r.isDragging || !WithinEnd(r, x, time2Pos)) &&
      (WithinStart(r, x, time2Pos) ==> r'.playRegion.end == r.oldPlayRegion.start) &&
      (!WithinStart(r, x, time2Pos) ==>
         r'.playRegion.end == (if r'.isDragging then r.quickPlayPos else r.oldPlayRegion.end)) &&
      r'.selection == (if CanDragSelection(r) then Mirror(r'.playRegion, r.selection) else r.selection)
  {
  }

  lemma DragClickEffect(r: Ruler, x: int, time2Pos: real -> int)
    ensures var r' := DragClick(r, x, time2Pos);
      DragKeeps(r, r') && r'.isDragging == r.isDragging && r'.selection == r.selection &&
      r'.state == (if ClickHolds(r, x, time2Pos) then r.state else SelectingRange)
  {
  }

  lemma DragRangeEffect(r: Ruler, x: int, time2Pos: real -> int)
    requires r.state == SelectingRange
    ensures var r' := DragRange(r, x, time2Pos);
      DragKeeps(r, r') && r'.state == r.state && r'.isDragging == r.isDragging &&
      r'.playRegion.start <= r'.playRegion.end &&
      multiset{r'.playRegion.start, r'.playRegion.end} == multiset{r.leftDownClick, r'.quickPlayPos}
  {
  }

  /**
   * One drag step of the gesture, at pointer column x.
   *  - Idle: the quick-play time snaps to the nearer old edge when the pointer is at one.
   *  - Dragging an edge: only that edge is written; dragging latches on once the pointer
   *    leaves the dragged edge, and the edge lands on the other old edge when near it.
   *  - Pending click: the region collapses to the click until the pointer leaves it,
   *    and then the gesture becomes a range sweep with the region untouched.
   *  - Range sweep: the region spans the click and the quick-play time, in order.
   * In both drag states and the range sweep, the selection follows the region when allowed.
   */
  function HandleQPDrag(r: Ruler, x: int, time2Pos: real -> int): (r': Ruler)
    ensures DragKeeps(r, r')
    ensures r.isDragging ==> r'.isDragging
    ensures !Dragging(r.state) ==> r'.isDragging == r.isDragging
    ensures r'.state == (if r.state == SelectingClick && !ClickHolds(r, x, time2Pos) then SelectingRange else r.state)
    // Idle
    ensures r.state == Idle ==> r'.playRegion == r.playRegion && r'.selection == r.selection
    ensures r.state == Idle && !NearOldEdge(r, x, time2Pos) ==> r'.quickPlayPos == r.quickPlayPos
    ensures r.state == Idle && NearOldEdge(r, x, time2Pos) ==>
      r'.quickPlayPos == (if RAbs(r.quickPlayPos - r.oldPlayRegion.start) < RAbs(r.quickPlayPos - r.oldPlayRegion.end)
                          then r.oldPlayRegion.start else r.oldPlayRegion.end)
    // Dragging the start
    ensures r.state == DraggingStart ==> r'.playRegion == r.playRegion.SetStart(r'.quickPlayPos)
    ensures r.state == DraggingStart ==> (r'.isDragging <==> r.isDragging || !WithinStart(r, x, time2Pos))
    ensures r.state == DraggingStart && WithinEnd(r, x, time2Pos) ==> r'.playRegion.start == r.oldPlayRegion.end
    ensures r.state == DraggingStart && !WithinEnd(r, x, time2Pos) ==>
      r'.playRegion.start == (if r'.isDragging then r.quickPlayPos else r.oldPlayRegion.start)
    // Dragging the end
    ensures r.state == DraggingEnd ==> r'.playRegion == r.playRegion.SetEnd(r'.quickPlayPos)
    ensures r.state == DraggingEnd ==> (r'.isDragging <==> r.isDragging || !WithinEnd(r, x, time2Pos))
    ensures r.state == DraggingEnd && WithinStart(r, x, time2Pos) ==> r'.playRegion.end == r.oldPlayRegion.start
    ensures r.state == DraggingEnd && !WithinStart(r, x, time2Pos) ==>
      r'.playRegion.end == (if r'.isDragging then r.quickPlayPos else r.oldPlayRegion.end)
    // Pending click
    ensures r.state == SelectingClick && ClickHolds(r, x, time2Pos) ==>
      r'.playRegion == r.playRegion.SetTimes(r.leftDownClick, r.leftDownClick) && r'.quickPlayPos == r.leftDownClick
    ensures r.state == SelectingClick && !ClickHolds(r, x, time2Pos) ==>
      r'.playRegion == r.playRegion && r'.quickPlayPos == r.quickPlayPos
    ensures r.state == SelectingClick ==> r'.selection == r.selection
    // Range sweep
    ensures r.state == SelectingRange ==>
      r'.quickPlayPos == (if WithinClick(r, x, time2Pos) then r.leftDownClick else r.quickPlayPos)
    ensures r.state == SelectingRange ==>
      r'.playRegion.start <= r'.playRegion.end &&
      multiset{r'.playRegion.start, r'.playRegion.end} == multiset{r.leftDownClick, r'.quickPlayPos}
    // Selection mirroring
    ensures Dragging(r.state) || r.state == SelectingRange ==>
      r'.selection == (if CanDragSelection(r) then Mirror(r'.playRegion, r.selection) else r.selection)
  {
    match r.state
    case Idle => DragIdleEffect(r, x, time2Pos); DragIdle(r, x, time2Pos)
    case DraggingStart => DragStartEffect(r, x, time2Pos); DragStart(r, x, time2Pos)
    case DraggingEnd => DragEndEffect(r, x, time2Pos); DragEnd(r, x, time2Pos)
    case SelectingClick => DragClickEffect(r, x, time2Pos); DragClick(r, x, time2Pos)
    case SelectingRange => DragRangeEffect(r, x, time2Pos); DragRange(r, x, time2Pos)
  }

  // ---------------------------------------------------------------------
  // Release

  /**
   * The release policy on the ordered region, with [t0, t1] the tracks'
   * extent: with shift held on an empty region, clear it when both the
   * selection and the point lie outside the tracks; otherwise clear a
   * region that starts at or after the end of the tracks, or a non-empty
   * one that ends before they start.
   */
  function ReleaseClears(p: PlayRegion, sel: SelectedRegion, t0: real, t1: real, shiftDown: bool): (clears: bool)
    ensures shiftDown && p.Empty() ==>
      (clears <==> (sel.t1 < t0 || sel.t0 > t1) && !(t0 <= p.start <= t1))
    ensures !(shiftDown && p.Empty()) && p.start <= p.end ==>
      (!clears <==> p.start < t1 && (p.start == p.end || t0 <= p.end))
  {
    if shiftDown && p.Empty() then
      (sel.t1 < t0 || sel.t0 > t1) && (p.start < t0 || p.start > t1)
    else if p.start >= t1 then true
    else p.end - p.start > 0.0 && p.end < t0
  }

  /**
   * What the policy keeps: a region that starts before the end of the tracks and
   * reaches them, even if it begins before them (pre-roll) or runs past their
   * end; and what it drops: a start at or past the end, without shift on a point.
   */
  lemma ReleaseKeepsPrerollAndPostroll(p: PlayRegion, sel: SelectedRegion, t0: real, t1: real, shiftDown: bool)
    requires p.start <= p.end
    ensures !(shiftDown && p.Empty()) && p.start < t1 && t0 <= p.end ==> !ReleaseClears(p, sel, t0, t1, shiftDown)
    ensures !(shiftDown && p.Empty()) && p.start >= t1 ==> ReleaseClears(p, sel, t0, t1, shiftDown)
    ensures shiftDown && p.Empty() && t0 <= p.start <= t1 ==> !ReleaseClears(p, sel, t0, t1, shiftDown)
  {
  }

  /** Starts playback of what quick-play decides, and shows the played span as the region. */
  function StartQPPlay(r: Ruler, looped: bool, cutPreview: bool, t0: real, t1: real): (r': Ruler)
    ensures r.playRegion.start < 0.0 ==> r' == r
    ensures r.playRegion.start >= 0.0 ==>
      var req := Decide(r.playRegion, r.selection, t0, t1, looped, cutPreview).value;
      r' == r.(transport := r.transport + [Stop, Play(req)],
               playRegion := r.playRegion.SetTimes(req.start, req.end))
  {
    match Decide(r.playRegion, r.selection, t0, t1, looped, cutPreview)
    case None => r
    case Some(req) =>
      r.(transport := r.transport + [Stop, Play(req)], playRegion := r.playRegion.SetTimes(req.start, req.end))
  }

  /** The region ordered, then cleared when the release policy says so. */
  function ApplyReleasePolicy(r: Ruler, shiftDown: bool, t0: real, t1: real): (r': Ruler)
    ensures var p := r.playRegion.Order();
      ReleaseClears(p, r.selection, t0, t1, shiftDown) ==>
      r' == r.(transport := r.transport + [Stop], playRegion := p.SetTimes(Unset, Unset))
    ensures var p := r.playRegion.Order();
      !ReleaseClears(p, r.selection, t0, t1, shiftDown) ==> r' == r.(playRegion := p)
  {
    var r1 := r.(playRegion := r.playRegion.Order());
    if ReleaseClears(r1.playRegion, r.selection, t0, t1, shiftDown) then ClearPlayRegion(r1) else r1
  }

  /** Puts back a region that was locked at mouse-down, and releases the local lock. */
  function RestoreLockedRegion(r: Ruler, locked: PlayRegion): (r': Ruler)
    requires r.state == Idle
    ensures locked.active ==>
      r' == r.(playRegion := PlayRegion(locked.start, locked.end, true), oldPlayRegion := r.oldPlayRegion.SetActive(false))
    ensures !locked.active ==> r' == r
  {
    if locked.active then
      var r1 := SetPlayRegion(r, locked.start, locked.end);
      r1.(playRegion := r1.playRegion.SetActive(true), oldPlayRegion := r1.oldPlayRegion.SetActive(false))
    else r
  }

  /**
   * Mouse-up: order the region, clear it under the release policy, end the
   * gesture, start playback (shift loops, control previews the cut), and
   * put back a region that was locked at mouse-down.
   */
  function HandleQPRelease(r: Ruler, shiftDown: bool, controlDown: bool, t0: real, t1: real): (r': Ruler)
    ensures r'.state == Idle && !r'.isDragging && r'.leftDownClick == Unset
    ensures r'.selection == r.selection
    ensures ReleaseClears(r.playRegion.Order(), r.selection, t0, t1, shiftDown) ==>
      r'.transport == r.transport + [Stop]
    ensures var p := r.playRegion.Order();
      !ReleaseClears(p, r.selection, t0, t1, shiftDown) && p.start >= 0.0 ==>
      r'.transport == r.transport + [Stop, Play(Decide(p, r.selection, t0, t1, shiftDown, controlDown).value)]
    ensures var p := r.playRegion.Order();
      !ReleaseClears(p, r.selection, t0, t1, shiftDown) && p.start < 0.0 ==> r'.transport == r.transport
    ensures !r.oldPlayRegion.active && ReleaseClears(r.playRegion.Order(), r.selection, t0, t1, shiftDown) ==>
      r'.playRegion == PlayRegion(Unset, Unset, r.playRegion.active)
    ensures var p := r.playRegion.Order();
      !r.oldPlayRegion.active && !ReleaseClears(p, r.selection, t0, t1, shiftDown) ==>
      r'.playRegion == (if p.start >= 0.0 then
                          var req := Decide(p, r.selection, t0, t1, shiftDown, controlDown).value;
                          p.SetTimes(req.start, req.end)
                        else p)
    ensures r.oldPlayRegion.active ==>
      r'.playRegion == PlayRegion(r.oldPlayRegion.start, r.oldPlayRegion.end, true) && !r'.oldPlayRegion.active
    ensures !r.oldPlayRegion.active ==> r'.oldPlayRegion == r.oldPlayRegion
  {
    var r2 := ApplyReleasePolicy(r, shiftDown, t0, t1);
    var r3 := r2.(state := Idle, isDragging := false, leftDownClick := Unset);
    var r4 := StartQPPlay(r3, shiftDown, controlDown, t0, t1);
    RestoreLockedRegion(r4, r.oldPlayRegion)
  }

  // ---------------------------------------------------------------------
  // The quick-play handle: mouse-down, drag, release and cancel of one gesture

  datatype Button = NoButton | Left | Right

  /** The handle's own state: the button that clicked, the pointer column, and the selection at mouse-down. */
  datatype Handle = Handle(clicked: Button, x: int, oldSelection: SelectedRegion)

  datatype Gesture = Gesture(ruler: Ruler, handle: Handle)

  /** One mouse move of the gesture. */
  datatype Move = Move(x: int, shiftDown: bool, qpCellTargeted: bool, view: View)

  /**
   * Mouse-down on the handle. A left click pauses a marked scrub, snapshots
   * the play region and the selection, and runs the mouse-down and a first
   * drag step at the handle's column; a right click only records the button.
   */
  function Click(g: Gesture, leftIsDown: bool, leftDown: bool, hasMark: bool, time2Pos: real -> int): (g': Gesture)
    ensures g'.handle.clicked == (if leftIsDown then Left else Right) && g'.handle.x == g.handle.x
    ensures !leftIsDown ==> g'.ruler == g.ruler && g'.handle.oldSelection == g.handle.oldSelection
    ensures leftIsDown ==> g'.handle.oldSelection == g.ruler.selection
    ensures leftIsDown ==> g'.ruler.oldPlayRegion == g.ruler.playRegion
    ensures leftIsDown ==> g'.ruler.state != Idle
    ensures leftIsDown ==> g'.ruler.transport == g.ruler.transport + (if hasMark then [Pause] else [])
    ensures leftIsDown ==> g'.ruler.selection == g.ruler.selection || CanDragSelection(g'.ruler)
    ensures leftIsDown ==>
      g'.ruler.playRegion.active == (g.ruler.playRegion.active && !leftDown)
  {
    var clicked := if leftIsDown then Left else Right;
    if clicked == Left then
      var r := g.ruler;
      var r1 := if hasMark then r.(transport := r.transport + [Pause]) else r;
      var r2 := r1.(oldPlayRegion := r.playRegion);
      var r3 := HandleQPClick(r2, leftDown, g.handle.x, time2Pos);
      Gesture(HandleQPDrag(r3, g.handle.x, time2Pos), Handle(clicked, g.handle.x, r.selection))
    else
      g.(handle := g.handle.(clicked := clicked))
  }

  /** A mouse move during a left-button gesture: track the pointer, then take a drag step. */
  function Drag(g: Gesture, m: Move): (g': Gesture)
    ensures g.handle.clicked != Left ==> g' == g
    ensures g'.handle.clicked == g.handle.clicked && g'.handle.oldSelection == g.handle.oldSelection
    ensures g'.ruler.oldPlayRegion == g.ruler.oldPlayRegion
    ensures g'.ruler.playRegion.active == g.ruler.playRegion.active
    ensures g.ruler.state != Idle ==> g'.ruler.state != Idle
    ensures g.handle.clicked == Left ==>
      g'.handle.x == ClampToUsable(m.x, m.view.leftOffset, m.view.usableWidth)
  {
    if g.handle.clicked == Left then
      var (r1, x') := UpdateQuickPlayPos(g.ruler, m.x, m.shiftDown, m.qpCellTargeted, m.view);
      Gesture(HandleQPDrag(r1, x', m.view.time2Pos), g.handle.(x := x'))
    else g
  }

  /** Mouse-up of a left-button gesture: release, then remember the resulting region for hover feedback. */
  function Release(g: Gesture, shiftDown: bool, controlDown: bool, t0: real, t1: real): (g': Gesture)
    ensures g.handle.clicked != Left ==> g' == g
    ensures g.handle.clicked == Left ==>
      g'.ruler.state == Idle && g'.ruler.oldPlayRegion == g'.ruler.playRegion
    ensures g.handle.clicked == Left ==>
      g'.ruler == HandleQPRelease(g.ruler, shiftDown, controlDown, t0, t1).(oldPlayRegion := g'.ruler.playRegion)
  {
    if g.handle.clicked == Left then
      var r := HandleQPRelease(g.ruler, shiftDown, controlDown, t0, t1);
      g.(ruler := r.(oldPlayRegion := r.playRegion))
    else g
  }

  /**
   * Cancel of a left-button gesture: the selection is restored first (its
   * notification is ignored while the gesture is live), then the gesture
   * ends, the old bounds are put back and a locked region is locked again.
   */
  function Cancel(g: Gesture): (g': Gesture)
    ensures g.handle.clicked != Left ==> g' == g
    ensures g.handle.clicked == Left ==>
      g'.ruler.state == Idle && g'.ruler.selection == g.handle.oldSelection
    ensures g.handle.clicked == Left ==>
      g'.ruler.playRegion == PlayRegion(g.ruler.oldPlayRegion.start, g.ruler.oldPlayRegion.end,
                                        g.ruler.oldPlayRegion.active || g.ruler.playRegion.active)
    ensures g.handle.clicked == Left ==> !g'.ruler.oldPlayRegion.active
    ensures g'.ruler.transport == g.ruler.transport
  {
    if g.handle.clicked == Left then
      var r := g.ruler;
      var r1 := DoSelectionChange(r.(selection := g.handle.oldSelection), g.handle.oldSelection);
      var r2 := SetPlayRegion(r1.(state := Idle), r.oldPlayRegion.start, r.oldPlayRegion.end);
      var r3 := if r.oldPlayRegion.active
                then r2.(playRegion := r2.playRegion.SetActive(true), oldPlayRegion := r2.oldPlayRegion.SetActive(false))
                else r2;
      g.(ruler := r3)
    else g
  }

  // ---------------------------------------------------------------------
  // Whole gestures

  /** The gesture after a sequence of mouse moves. */
  ghost function DragAll(g: Gesture, moves: seq<Move>): Gesture
    decreases |moves|
  {
    if moves == [] then g else DragAll(Drag(g, moves[0]), moves[1..])
  }

  /** What mouse-down recorded about the pre-gesture state g0 is still intact in g. */
  ghost predicate SnapshotIntact(g: Gesture, g0: Gesture)
  {
    (g.handle.clicked == Left ==>
       g.ruler.state != Idle && g.ruler.oldPlayRegion == g0.ruler.playRegion &&
       g.handle.oldSelection == g0.ruler.selection &&
       (g.ruler.playRegion.active ==> g0.ruler.playRegion.active)) &&
    (g.handle.clicked != Left ==> g.ruler == g0.ruler)
  }

  lemma {:induction false} DragAllKeepsSnapshot(g: Gesture, g0: Gesture, moves: seq<Move>)
    requires SnapshotIntact(g, g0)
    ensures SnapshotIntact(DragAll(g, moves), g0)
    ensures DragAll(g, moves).handle.clicked == g.handle.clicked
    decreases |moves|
  {
    if moves != [] {
      DragAllKeepsSnapshot(Drag(g, moves[0]), g0, moves[1..]);
    }
  }

  /**
   * Gesture atomicity: a mouse-down, any number of moves and a cancel leave
   * the play region (bounds and lock) and the selection exactly as they were
   * before the mouse-down.
   */
  lemma {:induction false} CancelRestoresPreGestureState(
    g0: Gesture, leftIsDown: bool, leftDown: bool, hasMark: bool, time2Pos: real -> int, moves: seq<Move>)
    requires g0.ruler.state == Idle
    ensures var g := Cancel(DragAll(Click(g0, leftIsDown, leftDown, hasMark, time2Pos), moves));
      g.ruler.playRegion == g0.ruler.playRegion && g.ruler.selection == g0.ruler.selection &&
      g.ruler.state == Idle
  {
    var g1 := Click(g0, leftIsDown, leftDown, hasMark, time2Pos);
    assert SnapshotIntact(g1, g0);
    DragAllKeepsSnapshot(g1, g0, moves);
  }

  /**
   * Cancel does not reset the drag latch, unlike release: a gesture
   * cancelled after its edge drag latched leaves the latch set, and the
   * next mouse-down keeps it, so the next edge drag starts latched.
   */
  lemma CancelKeepsLatch(g: Gesture, leftIsDown: bool, leftDown: bool, hasMark: bool, time2Pos: real -> int)
    requires g.ruler.isDragging
    ensures Cancel(g).ruler.isDragging
    ensures Click(Cancel(g), leftIsDown, leftDown, hasMark, time2Pos).ruler.isDragging
  {
  }

  /** Once the pointer has left the dragged edge, the gesture stays a drag through any further moves. */
  lemma {:induction false} DraggingLatches(g: Gesture, moves: seq<Move>)
    requires g.ruler.isDragging
    ensures DragAll(g, moves).ruler.isDragging
    decreases |moves|
  {
    if moves != [] {
      var g1 := Drag(g, moves[0]);
      assert g1.ruler.isDragging;
      DraggingLatches(g1, moves[1..]);
    }
  }

  /** In a range sweep the play region is ordered after every move, however many. */
  lemma {:induction false} RangeSweepStaysOrdered(g: Gesture, moves: seq<Move>)
    requires g.ruler.state == SelectingRange && g.handle.clicked == Left && moves != []
    ensures DragAll(g, moves).ruler.state == SelectingRange
    ensures DragAll(g, moves).ruler.playRegion.start <= DragAll(g, moves).ruler.playRegion.end
    decreases |moves|
  {
    var g1 := Drag(g, moves[0]);
    if |moves| > 1 {
      RangeSweepStaysOrdered(g1, moves[1..]);
    } else {
      assert DragAll(g, moves) == DragAll(g1, []);
    }
  }
}
