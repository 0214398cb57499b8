/**
 * The decision inside the ruler's quick-play start: which span to play,
 * whether to loop it, and in which play mode, given the play region, the
 * selection and the tracks' extent. The stop and play requests themselves
 * are issued by the panel (module QuickPlay).
 */
module Playback {
  import opened Wrappers
  import opened Regions

  /** Looping a span no longer than this may freeze playback, so it is played once. */
  const MinLoopSpan: real := 0.001

  datatype PlayMode = NormalPlay | LoopedPlay | CutPreviewPlay

  /**
   * A request to play [start, end] in a mode; `startTime` is the hint of
   * where playback begins, given for every mode but cut preview.
   */
  datatype PlayRequest = PlayRequest(start: real, end: real, mode: PlayMode, startTime: Option<real>)

  /** Whether the clicked point lies strictly inside the selection. */
  predicate InsideSelection(t: real, sel: SelectedRegion)
  {
    sel.t0 < t < sel.t1
  }

  /**
   * The span to play. Looping an empty region plays the selection when the
   * point is strictly inside it and the whole tracks' extent otherwise;
   * everything else plays the region's own bounds.
   */
  function PlaySpan(region: PlayRegion, sel: SelectedRegion, t0: real, t1: real, looped: bool): (span: (real, real))
    ensures region.Empty() && looped && InsideSelection(region.start, sel) ==> span == (sel.t0, sel.t1)
    ensures region.Empty() && looped && !InsideSelection(region.start, sel) ==> span == (t0, t1)
    ensures !(region.Empty() && looped) ==> span == (region.start, region.end)
  {
    if region.Empty() && looped then
      if region.start > sel.t0 && region.start < sel.t1 then (sel.t0, sel.t1) else (t0, t1)
    else
      (region.start, region.end)
  }

  /** The request built once the span and the effective loop flag are known. */
  function Request(region: PlayRegion, span: (real, real), loop: bool, cutPreview: bool): PlayRequest
  {
    var cut := cutPreview && !loop;
    var mode := if cut then CutPreviewPlay else if loop then LoopedPlay else NormalPlay;
    PlayRequest(span.0, span.1, mode, if cut then None else Some(region.start))
  }

  /**
   * What quick-play starts: nothing while the region start is unset;
   * otherwise the span above, looped only when looping was asked for and
   * the span is longer than MinLoopSpan, and effective looping overrides
   * cut preview.
   */
  function Decide(region: PlayRegion, sel: SelectedRegion, t0: real, t1: real,
                  looped: bool, cutPreview: bool): (d: Option<PlayRequest>)
    ensures d.None? <==> region.start < 0.0
    ensures d.Some? ==> (d.value.start, d.value.end) == PlaySpan(region, sel, t0, t1, looped)
    ensures d.Some? ==>
      (d.value.mode == LoopedPlay <==> looped && d.value.end - d.value.start > MinLoopSpan)
    ensures d.Some? ==>
      (d.value.mode == CutPreviewPlay <==>
        cutPreview && !(looped && d.value.end - d.value.start > MinLoopSpan))
    ensures d.Some? ==>
      d.value.startTime == (if d.value.mode == CutPreviewPlay then None else Some(region.start))
  {
    if region.start >= 0.0 then
      var span := PlaySpan(region, sel, t0, t1, looped);
      var loopEnabled := span.1 - span.0 > MinLoopSpan;
      Some(Request(region, span, loopEnabled && looped, cutPreview))
    else
      None
  }

  /**
   * The same decision as the source writes it: the local loop flag is
   * initialised from itself rather than from the `looped` argument, so it
   * starts out indeterminate; `indeterminate` stands for whatever value it
   * happens to hold.
   */
  function DecideAsWritten(region: PlayRegion, sel: SelectedRegion, t0: real, t1: real,
                           looped: bool, cutPreview: bool, indeterminate: bool): (d: Option<PlayRequest>)
    ensures d.None? <==> region.start < 0.0
    ensures d.Some? ==> (d.value.start, d.value.end) == PlaySpan(region, sel, t0, t1, looped)
    ensures d.Some? ==>
      (d.value.mode == LoopedPlay <==> indeterminate && d.value.end - d.value.start > MinLoopSpan)
  {
    if region.start >= 0.0 then
      var span := PlaySpan(region, sel, t0, t1, looped);
      var loopEnabled := span.1 - span.0 > MinLoopSpan;
      Some(Request(region, span, loopEnabled && indeterminate, cutPreview))
    else
      None
  }

  /**
   * As written, a plain click (no looping asked for) on the region [1, 3]
   * can start looped playback, and a looped request can play once; the
   * corrected decision plays it once and loops it, respectively.
   */
  lemma LoopFlagIgnoredAsWritten()
    ensures DecideAsWritten(PlayRegion(1.0, 3.0, false), SelectedRegion(0.0, 0.0), 0.0, 10.0, false, false, true)
            == Some(PlayRequest(1.0, 3.0, LoopedPlay, Some(1.0)))
    ensures Decide(PlayRegion(1.0, 3.0, false), SelectedRegion(0.0, 0.0), 0.0, 10.0, false, false)
            == Some(PlayRequest(1.0, 3.0, NormalPlay, Some(1.0)))
    ensures DecideAsWritten(PlayRegion(1.0, 3.0, false), SelectedRegion(0.0, 0.0), 0.0, 10.0, true, false, false)
            == Some(PlayRequest(1.0, 3.0, NormalPlay, Some(1.0)))
    ensures Decide(PlayRegion(1.0, 3.0, false), SelectedRegion(0.0, 0.0), 0.0, 10.0, true, false)
            == Some(PlayRequest(1.0, 3.0, LoopedPlay, Some(1.0)))
  {
  }

  /** The two agree exactly when the indeterminate flag happens to equal the argument. */
  lemma DecideIsAsWrittenWithArgument(region: PlayRegion, sel: SelectedRegion, t0: real, t1: real,
                                      looped: bool, cutPreview: bool)
    ensures Decide(region, sel, t0, t1, looped, cutPreview)
            == DecideAsWritten(region, sel, t0, t1, looped, cutPreview, looped)
  {
  }

  /** Looping a point inside the selection [2, 4] loops the selection. */
  lemma LoopPointInsideSelection()
    ensures Decide(PlayRegion(3.0, 3.0, false), SelectedRegion(2.0, 4.0), 0.0, 10.0, true, false)
            == Some(PlayRequest(2.0, 4.0, LoopedPlay, Some(3.0)))
  {
  }
}
