/**
 * The two overlays that show where the pointer is: the indicator on the
 * ruler and the guideline across the tracks. Each keeps the state computed
 * at this tick ("new") beside the state last drawn ("old"), asks for a
 * redraw when they differ, and commits new to old when it draws.
 */
module Overlays {
  import opened RulerGeometry

  /** Pixel position of a hidden indicator. */
  const Hidden: int := -1

  datatype Rect = Rect(x: int, y: int, width: int, height: int)

  /** The rectangle reported when nothing is shown. */
  const NoRect: Rect := Rect(0, 0, 0, 0)

  /** Ruler indicator: position and shape (scrub, seek) as computed now and as last drawn. */
  datatype RulerIndicator = RulerIndicator(
    newPos: int, newScrub: bool, newSeek: bool,
    oldPos: int, oldScrub: bool, oldSeek: bool)

  /** What the ruler indicator reads from the panel and the scrubber at a tick. */
  datatype RulerInputs = RulerInputs(
    isScrubbing: bool,
    isSpeedPlaying: bool,
    isKeyboardScrubbing: bool,
    pointerInRuler: bool,
    audioActive: bool,
    quickPlayPos: real,
    trackEnd: real,
    selectionEnd: real,
    otherDrag: bool,
    inScrubCell: bool,
    hasMark: bool,
    seeks: bool,
    temporarilySeeks: bool)

  /** A mouse-driven scrub is in progress (not speed play, not keyboard scrubbing). */
  predicate Scrubbing(i: RulerInputs)
  {
    i.isScrubbing && !i.isSpeedPlaying && !i.isKeyboardScrubbing
  }

  /** The indicator is shown at this tick. */
  predicate Shown(i: RulerInputs)
  {
    !((!i.pointerInRuler || i.audioActive) && !Scrubbing(i)) &&
    i.quickPlayPos < (if i.trackEnd < i.selectionEnd then i.selectionEnd else i.trackEnd)
  }

  /**
   * Computes the new indicator: hidden during transport or when the pointer
   * is off the ruler (unless scrubbing), and at or beyond the later of the
   * tracks' end and the selection's end; otherwise at the quick-play time,
   * with the scrub shape in the scrub zone or while a scrub is marked, and
   * the seek shape only together with the scrub shape.
   */
  function UpdateRuler(o: RulerIndicator, i: RulerInputs, time2Pos: real -> int): (o': RulerIndicator)
    ensures !Shown(i) ==> o' == o.(newPos := Hidden)
    ensures Shown(i) ==> o'.newPos == time2Pos(i.quickPlayPos)
    ensures Shown(i) ==> (o'.newScrub <==> !i.otherDrag && (i.inScrubCell || i.hasMark))
    ensures Shown(i) ==> (o'.newSeek <==> o'.newScrub && (i.seeks || i.temporarilySeeks))
    ensures o'.newSeek ==> o'.newScrub || (o.newSeek && !o.newScrub)
    ensures o'.oldPos == o.oldPos && o'.oldScrub == o.oldScrub && o'.oldSeek == o.oldSeek
  {
    if (!i.pointerInRuler || i.audioActive) && !Scrubbing(i) then
      o.(newPos := Hidden)
    else
      var latestEnd := if i.trackEnd < i.selectionEnd then i.selectionEnd else i.trackEnd;
      if i.quickPlayPos >= latestEnd then
        o.(newPos := Hidden)
      else
        var scrub := !i.otherDrag && (i.inScrubCell || i.hasMark);
        o.(newPos := time2Pos(i.quickPlayPos), newScrub := scrub,
           newSeek := scrub && (i.seeks || i.temporarilySeeks))
  }

  /** Commits the new state as the drawn one. */
  function DrawRuler(o: RulerIndicator): (o': RulerIndicator)
    ensures o'.oldPos == o.newPos && o'.oldScrub == o.newScrub && o'.oldSeek == o.newSeek
    ensures o'.newPos == o.newPos && o'.newScrub == o.newScrub && o'.newSeek == o.newSeek
  {
    o.(oldPos := o.newPos, oldScrub := o.newScrub, oldSeek := o.newSeek)
  }

  /**
   * The rectangle to repaint and whether it needs it: a redraw is needed
   * exactly when drawing would change the remembered state while the
   * indicator is shown before or after. The rectangle, around the drawn
   * position, is wide enough for the big indicator.
   */
  function RulerRectangle(o: RulerIndicator, height: int): (res: (Rect, bool))
    ensures res.1 <==> DrawRuler(o) != o && (o.oldPos >= 0 || o.newPos >= 0)
    ensures o.oldPos < 0 ==> res.0 == NoRect
    ensures o.oldPos >= 0 ==>
      res.0.x <= o.oldPos - IndicatorBigWidth() / 2 &&
      o.oldPos + IndicatorBigWidth() / 2 < res.0.x + res.0.width &&
      res.0.y == 0 && res.0.height == height
  {
    var x := o.oldPos;
    if x >= 0 then
      var width := IndicatorBigWidth() * 3 / 2;
      var indsize := width / 2;
      (Rect(x - indsize, 0, indsize * 2 + 1, height),
       x != o.newPos || o.oldScrub != o.newScrub || o.oldSeek != o.newSeek)
    else
      (NoRect, o.newPos >= 0)
  }

  /** Right after drawing, the ruler indicator asks for no redraw. */
  lemma RulerDrawnIsClean(o: RulerIndicator, height: int)
    ensures !RulerRectangle(DrawRuler(o), height).1
  {
  }

  /** With unchanged inputs, once the indicator is drawn no further redraw is asked for. */
  lemma RulerSettles(o: RulerIndicator, i: RulerInputs, time2Pos: real -> int, height: int)
    ensures !RulerRectangle(UpdateRuler(DrawRuler(UpdateRuler(o, i, time2Pos)), i, time2Pos), height).1
  {
  }

  /** Track-panel guideline: colour flags as computed now, and position and flags as last drawn. */
  datatype Guideline = Guideline(
    newSnapped: bool, newPreviewingScrub: bool,
    oldPos: int, oldSnapped: bool, oldPreviewingScrub: bool)

  /** The guideline previews a scrub while the pointer is in the scrub zone and no scrub runs. */
  function UpdateGuideline(g: Guideline, inScrubCell: bool, isScrubbing: bool, isSnapped: bool): (g': Guideline)
    ensures g'.newPreviewingScrub <==> inScrubCell && !isScrubbing
    ensures g'.newSnapped == isSnapped
    ensures g'.oldPos == g.oldPos && g'.oldSnapped == g.oldSnapped && g'.oldPreviewingScrub == g.oldPreviewingScrub
  {
    g.(newPreviewingScrub := inScrubCell && !isScrubbing, newSnapped := isSnapped)
  }

  /** Commits the ruler indicator's new position and the new flags as drawn. */
  function DrawGuideline(g: Guideline, partnerNewPos: int): (g': Guideline)
    ensures g'.oldPos == partnerNewPos && g'.oldSnapped == g.newSnapped && g'.oldPreviewingScrub == g.newPreviewingScrub
    ensures g'.newSnapped == g.newSnapped && g'.newPreviewingScrub == g.newPreviewingScrub
  {
    g.(oldPos := partnerNewPos, oldSnapped := g.newSnapped, oldPreviewingScrub := g.newPreviewingScrub)
  }

  /**
   * The one-pixel column at the drawn position, and whether it needs a
   * redraw: exactly when drawing would change the remembered state.
   */
  function GuidelineRectangle(g: Guideline, partnerNewPos: int, height: int): (res: (Rect, bool))
    ensures res.1 <==> DrawGuideline(g, partnerNewPos) != g
    ensures res.0 == Rect(g.oldPos, 0, 1, height)
  {
    (Rect(g.oldPos, 0, 1, height),
     g.oldPos != partnerNewPos || g.oldSnapped != g.newSnapped || g.oldPreviewingScrub != g.newPreviewingScrub)
  }

  /** Right after drawing, the guideline asks for no redraw until its partner or its flags move. */
  lemma GuidelineDrawnIsClean(g: Guideline, partnerNewPos: int, height: int)
    ensures !GuidelineRectangle(DrawGuideline(g, partnerNewPos), partnerNewPos, height).1
  {
  }

  /** The overlay drawn on the ruler. */
  class ScrubbingRulerOverlay {
    var newQPIndicatorPos: int
    var newScrub: bool
    var newSeek: bool
    var oldQPIndicatorPos: int
    var oldScrub: bool
    var oldSeek: bool

    function Model(): RulerIndicator
      reads this
    {
      RulerIndicator(newQPIndicatorPos, newScrub, newSeek, oldQPIndicatorPos, oldScrub, oldSeek)
    }

    constructor ()
      ensures Model() == RulerIndicator(Hidden, false, false, Hidden, false, false)
    {
      newQPIndicatorPos, newScrub, newSeek := Hidden, false, false;
      oldQPIndicatorPos, oldScrub, oldSeek := Hidden, false, false;
    }

    method Update(i: RulerInputs, time2Pos: real -> int)
      modifies this
      ensures Model() == UpdateRuler(old(Model()), i, time2Pos)
    {
      // No indicator while audio runs or the ruler has no pointer cell, except during a mouse scrub
      if (!i.pointerInRuler || i.audioActive) && !Scrubbing(i) {
        newQPIndicatorPos := Hidden;
      } else {
        var latestEnd := if i.trackEnd < i.selectionEnd then i.selectionEnd else i.trackEnd;
        if i.quickPlayPos >= latestEnd {
          newQPIndicatorPos := Hidden;
        } else {
          newQPIndicatorPos := time2Pos(i.quickPlayPos);
          // The shape depends on the zone and the scrubber's mode; a drag in progress forces the plain shape
          newScrub := !i.otherDrag && (i.inScrubCell || i.hasMark);
          newSeek := newScrub && (i.seeks || i.temporarilySeeks);
        }
      }
    }

    method DoGetRectangle(i: RulerInputs, time2Pos: real -> int, height: int) returns (rect: Rect, dirty: bool)
      modifies this
      ensures Model() == UpdateRuler(old(Model()), i, time2Pos)
      ensures (rect, dirty) == RulerRectangle(Model(), height)
    {
      Update(i, time2Pos);
      var x := oldQPIndicatorPos;
      if x >= 0 {
        // One width, that of the big indicator, serves both shapes
        var width := IndicatorBigWidth() * 3 / 2;
        var indsize := width / 2;
        rect := Rect(x - indsize, 0, indsize * 2 + 1, height);
        dirty := x != newQPIndicatorPos || oldScrub != newScrub || oldSeek != newSeek;
      } else {
        rect := NoRect;
        dirty := newQPIndicatorPos >= 0;
      }
    }

    method Draw()
      modifies this
      ensures Model() == DrawRuler(old(Model()))
    {
      oldQPIndicatorPos := newQPIndicatorPos;
      oldScrub := newScrub;
      oldSeek := newSeek;
    }
  }

  /** The overlay drawn across the tracks; it follows its partner's indicator position. */
  class TrackPanelGuidelineOverlay {
    const partner: ScrubbingRulerOverlay
    var newIndicatorSnapped: bool
    var newPreviewingScrub: bool
    var oldQPIndicatorPos: int
    var oldIndicatorSnapped: bool
    var oldPreviewingScrub: bool

    function Model(): Guideline
      reads this
    {
      Guideline(newIndicatorSnapped, newPreviewingScrub, oldQPIndicatorPos, oldIndicatorSnapped, oldPreviewingScrub)
    }

    constructor ()
      ensures fresh(partner) && partner.Model() == RulerIndicator(Hidden, false, false, Hidden, false, false)
      ensures Model() == Guideline(false, false, Hidden, false, false)
    {
      partner := new ScrubbingRulerOverlay();
      newIndicatorSnapped, newPreviewingScrub := false, false;
      oldQPIndicatorPos, oldIndicatorSnapped, oldPreviewingScrub := Hidden, false, false;
    }

    method Update(inScrubCell: bool, isScrubbing: bool, isSnapped: bool)
      modifies this
      ensures Model() == UpdateGuideline(old(Model()), inScrubCell, isScrubbing, isSnapped)
    {
      // The two flags choose the line's colour when it is drawn
      newPreviewingScrub := inScrubCell && !isScrubbing;
      newIndicatorSnapped := isSnapped;
    }

    method DoGetRectangle(inScrubCell: bool, isScrubbing: bool, isSnapped: bool, height: int)
      returns (rect: Rect, dirty: bool)
      modifies this
      ensures Model() == UpdateGuideline(old(Model()), inScrubCell, isScrubbing, isSnapped)
      ensures (rect, dirty) == GuidelineRectangle(Model(), partner.newQPIndicatorPos, height)
    {
      Update(inScrubCell, isScrubbing, isSnapped);
      rect := Rect(oldQPIndicatorPos, 0, 1, height);
      dirty := oldQPIndicatorPos != partner.newQPIndicatorPos ||
               oldIndicatorSnapped != newIndicatorSnapped ||
               oldPreviewingScrub != newPreviewingScrub;
    }

    method Draw()
      modifies this
      ensures Model() == DrawGuideline(old(Model()), partner.newQPIndicatorPos)
    {
      oldQPIndicatorPos := partner.newQPIndicatorPos;
      oldIndicatorSnapped := newIndicatorSnapped;
      oldPreviewingScrub := newPreviewingScrub;
    }
  }
}
