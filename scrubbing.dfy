/**
 * The scrub zone of the ruler: the status message shown there, and the
 * mouse-down that hands a scrub over to the scrubber.
 */
module Scrubbing {
  import opened Wrappers
  import opened QuickPlay

  const StartScrubbing: string := "Click & move to Scrub. Click & drag to Seek."
  const ReleaseToStopSeeking: string := "Drag to Seek. Release to stop seeking."
  const ReleaseAndMoveToScrub: string := "Drag to Seek. Release and move to Scrub."
  const MoveToScrub: string := "Move to Scrub. Drag to Seek."

  /** How to begin: a message distinct from each of the messages shown once a scrub is marked. */
  function StartScrubbingMessage(): (m: string)
    ensures m != ReleaseToStopSeeking && m != ReleaseAndMoveToScrub && m != MoveToScrub
  {
    StartScrubbing
  }

  /** With the button down, dragging is mentioned first; with it up, moving. */
  function ContinueScrubbingMessage(isScrubbing: bool, clicked: bool): (m: string)
    ensures m != StartScrubbing
    ensures clicked <==> m != MoveToScrub
    ensures clicked ==> (m == ReleaseToStopSeeking <==> isScrubbing)
    ensures clicked && !isScrubbing ==> m == ReleaseAndMoveToScrub
  {
    if clicked then
      if isScrubbing then ReleaseToStopSeeking else ReleaseAndMoveToScrub
    else
      MoveToScrub
  }

  /**
   * The message for the scrub zone: how to start while no scrub is marked,
   * and how to go on once one is, by whether the button is down and whether
   * a scrub or seek already runs. Each situation has its own message.
   */
  function ScrubbingMessage(hasMark: bool, isScrubbing: bool, clicked: bool): (m: string)
    ensures m == StartScrubbing <==> !hasMark
    ensures m == ReleaseToStopSeeking <==> hasMark && clicked && isScrubbing
    ensures m == ReleaseAndMoveToScrub <==> hasMark && clicked && !isScrubbing
    ensures m == MoveToScrub <==> hasMark && !clicked
  {
    if hasMark then ContinueScrubbingMessage(isScrubbing, clicked) else StartScrubbingMessage()
  }

  /** The request that starts the asynchronous scrub poller. */
  datatype MarkRequest = MarkScrubStart(x: int, pinned: bool, seek: bool)

  /** What a handle event tells the panel: repaint the overlays, or the gesture is cancelled. */
  datatype RefreshResult = DrawOverlays | Cancelled

  /** The handle of a mouse gesture in the scrub zone. */
  class ScrubbingHandle {
    const x: int
    var clicked: Button

    constructor (xx: int)
      ensures x == xx && clicked == NoButton
    {
      x := xx;
      clicked := NoButton;
    }

    /**
     * Mouse-down in the scrub zone. A left click is cancelled when scrubbing
     * is not allowed now; otherwise it marks a scrub start at the event's
     * column, unless one is already marked.
     */
    method Click(leftIsDown: bool, eventX: int, canScrub: bool, showingScrubRuler: bool,
                 hasMark: bool, pinned: bool) returns (result: RefreshResult, mark: Option<MarkRequest>)
      modifies this
      ensures clicked == (if leftIsDown then Left else Right)
      ensures result == Cancelled <==> leftIsDown && !(canScrub && showingScrubRuler)
      ensures mark.Some? <==> leftIsDown && canScrub && showingScrubRuler && !hasMark
      ensures mark.Some? ==> mark.value == MarkScrubStart(eventX, pinned, false)
    {
      clicked := if leftIsDown then Left else Right;
      result := DrawOverlays;
      mark := None;
      if clicked == Left {
        // A left click needs the scrubber's permission and a visible scrub ruler
        if !(canScrub && showingScrubRuler) {
          result := Cancelled;
          return;
        }
        if !hasMark {
          // Without a mark yet, request one at the event's column
          mark := Some(MarkScrubStart(eventX, pinned, false));
        }
      }
    }
  }
}
