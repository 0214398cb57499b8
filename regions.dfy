/**
 * The project's play region and time selection, as the ruler uses them.
 * Both types belong to the editor's view model, outside the ruler; the
 * bodies below are the behaviour the ruler relies on.
 */
module Regions {

  /** Times are seconds; a negative time (the ruler writes -1) means "unset". */
  const Unset: real := -1.0

  function RMin(a: real, b: real): real { if a <= b then a else b }
  function RMax(a: real, b: real): real { if a <= b then b else a }

  function RAbs(a: real): (r: real)
    ensures r >= 0.0 && (r == a || r == -a)
  {
    if a < 0.0 then -a else a
  }

  /** The play (loop) region: two bounds that need not be ordered, and whether it is locked on. */
  datatype PlayRegion = PlayRegion(start: real, end: real, active: bool) {

    /** A region is empty when it does not reach forward in time. */
    predicate Empty() { end - start <= 0.0 }

    /** Puts the bounds in order, swapping them when needed and losing neither. */
    function Order(): (p: PlayRegion)
      ensures p.start <= p.end && p.active == active
      ensures multiset{p.start, p.end} == multiset{start, end}
    {
      if end < start then PlayRegion(end, start, active) else this
    }

    function SetTimes(s: real, e: real): PlayRegion { this.(start := s, end := e) }
    function SetStart(s: real): PlayRegion { this.(start := s) }
    function SetEnd(e: real): PlayRegion { this.(end := e) }
    function SetActive(b: bool): PlayRegion { this.(active := b) }
  }

  /** The time selection [t0, t1]. */
  datatype SelectedRegion = SelectedRegion(t0: real, t1: real) {

    function EnsureOrdering(): SelectedRegion
    {
      if t1 < t0 then SelectedRegion(t1, t0) else this
    }

    /** Moves t0; without swapping, t1 is pushed along when t0 passes it. */
    function SetT0(t: real, maySwap: bool): SelectedRegion
    {
      if maySwap then SelectedRegion(t, t1).EnsureOrdering()
      else if t1 < t then SelectedRegion(t, t)
      else SelectedRegion(t, t1)
    }

    /** Moves t1; without swapping, t0 is pushed along when t1 passes it. */
    function SetT1(t: real, maySwap: bool): SelectedRegion
    {
      if maySwap then SelectedRegion(t0, t).EnsureOrdering()
      else if t < t0 then SelectedRegion(t, t)
      else SelectedRegion(t0, t)
    }
  }

  /**
   * The selection a play region drags along with it: t0 set to the start
   * without swapping, then t1 set to the end with swapping. Whatever the
   * order of the region's bounds, the result is the ordered pair of them.
   */
  function Mirror(p: PlayRegion, sel: SelectedRegion): (s: SelectedRegion)
    ensures s.t0 <= s.t1
    ensures multiset{s.t0, s.t1} == multiset{p.start, p.end}
  {
    sel.SetT0(p.start, false).SetT1(p.end, true)
  }
}
