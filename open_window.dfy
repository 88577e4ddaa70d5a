/**
 * The open-window predicate: whether a place with a given opening and
 * closing hour is open at a query hour of the day.
 */
module OpenWindow {

  /**
   * `is_open`: the 24-hour case first, then a same-day window, then a window
   * past midnight. No window other than (0, 24) is open in the hour it closes,
   * and a window that opens and closes at the same hour is never open.
   */
  predicate IsOpen(open: int, close: int, h: int): (b: bool)
    ensures h == close && close != 24 ==> !b
    ensures open == close ==> !b
  {
    if open == 0 && close == 24 then true
    else if open <= close then open <= h < close
    else h >= open || h < close
  }

  /** (0, 24) is open at every hour. */
  lemma AlwaysOpen(h: int)
    ensures IsOpen(0, 24, h)
  {
  }

  /** A same-day window is the half-open interval from opening to closing hour. */
  lemma SameDay(open: int, close: int, h: int)
    requires open <= close && (open, close) != (0, 24)
    ensures IsOpen(open, close, h) <==> open <= h < close
  {
  }

  /** A window past midnight is open from the opening hour on, or before the closing hour. */
  lemma Wraparound(open: int, close: int, h: int)
    requires open > close
    ensures IsOpen(open, close, h) <==> h >= open || h < close
  {
  }

  /** A window that closes at hour 0 wraps: it is open from the opening hour to the end of the day. */
  lemma ClosesAtMidnight(open: int, h: int)
    requires 0 < open && 0 <= h
    ensures IsOpen(open, 0, h) <==> h >= open
  {
  }

  /** Length of the open window in hours, counting a wrap past midnight. */
  function Duration(open: int, close: int): (d: int)
    requires 0 <= open <= 24 && 0 <= close <= 24
    ensures 0 <= d <= 24
    ensures d == 24 <==> (open, close) == (0, 24)
  {
    if open <= close then close - open else close - open + 24
  }

  /**
   * Reference characterisation: an hour of the day is open exactly when the
   * hours elapsed since opening, counted round the clock, fall within the
   * window's duration.
   */
  lemma OpenIffWithinDuration(open: int, close: int, h: int)
    requires 0 <= open <= 24 && 0 <= close <= 24 && 0 <= h <= 23
    ensures IsOpen(open, close, h) <==> (h - open) % 24 < Duration(open, close)
  {
    var e := h - open;
    if e >= 0 {
      assert e % 24 == e;
    } else {
      assert e % 24 == e + 24;
    }
  }

  /** Number of hours h in [0, n) at which the window is open. */
  function OpenHours(open: int, close: int, n: nat): nat {
    if n == 0 then 0 else OpenHours(open, close, n - 1) + (if IsOpen(open, close, n - 1) then 1 else 0)
  }

  /** Over a whole day a place is open for exactly its window's duration. */
  lemma OpenHoursPerDay(open: int, close: int)
    requires 0 <= open <= 24 && 0 <= close <= 24
    ensures OpenHours(open, close, 24) == Duration(open, close)
  {
    OpenHoursUpTo(open, close, 24);
  }

  lemma {:induction false} OpenHoursUpTo(open: int, close: int, n: nat)
    requires 0 <= open <= 24 && 0 <= close <= 24 && n <= 24
    ensures OpenHours(open, close, n) ==
      if open == 0 && close == 24 then n
      else if open <= close then Clamp(close, n) - Clamp(open, n)
      else Clamp(close, n) + n - Clamp(open, n)
  {
    if n > 0 {
      OpenHoursUpTo(open, close, n - 1);
    }
  }

  /** min(x, n) for x >= 0. */
  function Clamp(x: int, n: nat): int {
    if x < n then x else n
  }
}
