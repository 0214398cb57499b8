/**
 * Integer pixel helpers of the timeline ruler: the sizes of the scrub
 * indicator, the ruler height, the marker hit tolerance, and the clamping
 * of the pointer into the usable track width.
 */
module RulerGeometry {

  /** Half-width, in pixels, of the hit window around a marker. */
  const SelectTolerancePixel: int := 4

  const IndicatorSmallWidth: int := 9
  const IndicatorMediumWidth: int := 13
  const TopMargin: int := 1
  const ScrubHeight: int := 14
  const ProperRulerHeight: int := 29

  function Abs(i: int): (r: nat)
    ensures r == i || r == -i
  {
    if i < 0 then -i else i
  }

  function Max(a: int, b: int): int { if a < b then b else a }
  function Min(a: int, b: int): int { if a < b then a else b }

  /** Euclidean division of a natural number brackets it between two multiples of the divisor. */
  lemma DivisionBracket(n: nat, d: int)
    requires d > 0
    ensures 0 <= n / d && (n / d) * d <= n < (n / d) * d + d
  {
    assert n == (n / d) * d + n % d;
  }

  /** Integer division as the source's `int` operator does it: truncation toward zero. */
  function CDiv(a: int, d: int): (q: int)
    requires d > 0
    ensures a >= 0 ==> 0 <= q && q * d <= a < q * d + d
    ensures a < 0 ==> q <= 0 && q * d - d < a <= q * d
  {
    if a >= 0 then
      DivisionBracket(a, d);
      a / d
    else
      var m := (-a) / d;
      DivisionBracket(-a, d);
      assert (-m) * d == -(m * d);
      -m
  }

  /**
   * Height of the triangular indicator drawn for a given width: about
   * three quarters of it, rounded down twice.
   */
  function IndicatorHeightForWidth(width: int): (h: int)
    ensures width >= 0 ==> 0 <= h && 4 * h <= 3 * width < 4 * h + 6
  {
    var half := CDiv(width, 2);
    var h := CDiv(half * 3, 2);
    h
  }

  /** Width of the indicator for a given height, never below the small width. */
  function IndicatorWidthForHeight(height: int): (w: int)
    ensures w >= IndicatorSmallWidth
    ensures height >= 0 ==> w % 2 == 0 || w == IndicatorSmallWidth
    ensures height >= 0 ==> w == IndicatorSmallWidth || 3 * w <= 4 * height
  {
    Max(IndicatorSmallWidth, CDiv(height * 2, 3) * 2)
  }

  /**
   * The two conversions are inverse only up to rounding: going from a
   * height to a width and back loses at most one pixel, and small heights
   * come back as the height of the smallest indicator (6).
   */
  lemma HeightWidthRoundTrip(h: int)
    requires h >= 0
    ensures h - 1 <= IndicatorHeightForWidth(IndicatorWidthForHeight(h))
    ensures IndicatorHeightForWidth(IndicatorWidthForHeight(h)) <= Max(h, 6)
  {
  }

  /** Going from a width to a height and back loses at most three pixels. */
  lemma WidthHeightRoundTrip(w: int)
    requires w >= IndicatorSmallWidth
    ensures w - 3 <= IndicatorWidthForHeight(IndicatorHeightForWidth(w)) <= w
  {
  }

  /** Height of the big (scrub) indicator: the scrub zone less the top margin. */
  function IndicatorBigHeight(): (h: int)
    ensures h == ScrubHeight - TopMargin && h >= IndicatorMediumWidth
  {
    Max(ScrubHeight - TopMargin, IndicatorMediumWidth)
  }

  /** Width of the big indicator. */
  function IndicatorBigWidth(): (w: int)
    ensures w == 16 && IndicatorHeightForWidth(w) <= IndicatorBigHeight()
  {
    IndicatorWidthForHeight(IndicatorBigHeight())
  }

  /** Height of the whole ruler; the scrub bar adds exactly its own height. */
  function GetRulerHeight(showScrubBar: bool): (h: int)
    ensures h >= ProperRulerHeight
    ensures h - ProperRulerHeight == (if showScrubBar then ScrubHeight else 0)
  {
    ProperRulerHeight + (if showScrubBar then ScrubHeight else 0)
  }

  /**
   * Whether pixel column `mousePosX` hits the marker at `markerTime`: a
   * negative time is the "unset" sentinel and is never hit; otherwise the
   * window is half-open, four pixels to the left and three to the right.
   */
  function IsWithinMarker(mousePosX: int, markerTime: real, time2Pos: real -> int): (within: bool)
    ensures markerTime < 0.0 ==> !within
    ensures within <==>
      (markerTime >= 0.0 && -SelectTolerancePixel <= mousePosX - time2Pos(markerTime) < SelectTolerancePixel)
  {
    if markerTime < 0.0 then false
    else
      var pixelPos := time2Pos(markerTime);
      var boundLeft := pixelPos - SelectTolerancePixel;
      var boundRight := pixelPos + SelectTolerancePixel;
      mousePosX >= boundLeft && mousePosX < boundRight
  }

  /** The hit window holds exactly 2 * SelectTolerancePixel columns: the marker's own and the 3 + 4 around it. */
  lemma WithinMarkerEdges(markerTime: real, time2Pos: real -> int)
    requires markerTime >= 0.0
    ensures IsWithinMarker(time2Pos(markerTime) - SelectTolerancePixel, markerTime, time2Pos)
    ensures IsWithinMarker(time2Pos(markerTime) + SelectTolerancePixel - 1, markerTime, time2Pos)
    ensures !IsWithinMarker(time2Pos(markerTime) - SelectTolerancePixel - 1, markerTime, time2Pos)
    ensures !IsWithinMarker(time2Pos(markerTime) + SelectTolerancePixel, markerTime, time2Pos)
  {
  }

  /**
   * The pointer column kept within the usable track area: raised to the
   * left offset, then lowered to the last usable column. With no usable
   * width the upper bound wins.
   */
  function ClampToUsable(x: int, leftOffset: int, usableWidth: int): (c: int)
    ensures c <= leftOffset + usableWidth - 1
    ensures usableWidth >= 1 ==> leftOffset <= c
    ensures leftOffset <= x <= leftOffset + usableWidth - 1 ==> c == x
    ensures x < leftOffset && usableWidth >= 1 ==> c == leftOffset
    ensures x > leftOffset + usableWidth - 1 ==> c == leftOffset + usableWidth - 1
  {
    Min(Max(x, leftOffset), leftOffset + usableWidth - 1)
  }
}
