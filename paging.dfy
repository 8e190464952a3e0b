/**
 * The windowing and pagination arithmetic of getEventList and paginate:
 * a half-open range [start, end) over a user's sorted timeline of n events,
 * centred on a start position and then shifted by whole pages.
 */
module Paging {
  import opened Wrappers
  import opened Strconv

  function Max(a: int, b: int): int { if a >= b then a else b }
  function Min(a: int, b: int): int { if a <= b then a else b }

  /** limit/2 with Go's integer division, which truncates toward zero. */
  function Half(n: int): (h: int)
    ensures n >= 0 ==> 0 <= 2 * h <= n < 2 * h + 2
    ensures n < 0 ==> 2 * h - 2 < n <= 2 * h <= 0
  {
    if n >= 0 then n / 2 else -((-n) / 2)
  }

  /**
   * The window step of getEventList for a parsed limit: centre a window of
   * limit events on position s, clamp it to [0, n), and when the upper bound
   * cut it short, extend it to the left by what was lost.
   */
  function Window(s: int, limit: int, n: nat): (w: (int, int))
    // the window holds the anchor and is exactly min(limit, n) long
    ensures 0 <= s < n && limit > 0 ==> 0 <= w.0 <= s < w.1 <= n && w.1 - w.0 == Min(limit, n)
    // a non-negative limit from a start inside the timeline stays inside it
    ensures 0 <= s <= n && limit >= 0 ==> 0 <= w.0 <= w.1 <= n
    // a negative limit always produces an inverted range
    ensures s >= 0 && limit < 0 ==> w.1 < w.0
  {
    var start := Max(0, s - Half(limit));
    var end := Min(n, start + limit);
    if end - start < limit then (Max(0, start - (limit - (end - start))), end) else (start, end)
  }

  /**
   * An independent description of the window for a non-negative limit: it
   * starts as close to limit/2 before s as the bounds allow and ends limit
   * positions later or at n.
   */
  function ClampedWindow(s: int, limit: int, n: nat): (int, int) {
    var start := Max(0, Min(s - Half(limit), n - limit));
    (start, Min(n, start + limit))
  }

  /** The window loop and the closed form agree on every input with limit >= 0. */
  lemma WindowIsClamped(s: int, limit: int, n: nat)
    requires limit >= 0
    ensures Window(s, limit, n) == ClampedWindow(s, limit, n)
  {
    var start := Max(0, s - Half(limit));
    var end := Min(n, start + limit);
    if end - start < limit {
      assert end == n;
    }
  }

  /** A limit of zero collapses the window to the empty range at s. */
  lemma WindowZero(s: int, n: nat)
    requires 0 <= s <= n
    ensures Window(s, 0, n) == (s, s)
  {
  }

  /** The page number parsed from its string, if it is a decimal integer. */
  function PageOffset(pageStr: string, limit: int): (o: Option<int>)
    ensures o.Some? <==> IsDecimalLiteral(pageStr)
    ensures o.Some? ==> o.value == Atoi(pageStr).value * limit
  {
    match Atoi(pageStr)
    case None => None
    case Some(page) => Some(page * limit)
  }

  /**
   * paginate: shift the range by page * limit and clamp both ends to
   * [0, max]; an unparseable page leaves the range as it is.
   */
  function Paginate(start: int, end: int, limit: int, max: nat, pageStr: string): (r: (int, int))
    ensures !IsDecimalLiteral(pageStr) ==> r == (start, end)
    ensures IsDecimalLiteral(pageStr) ==> 0 <= r.0 <= max && 0 <= r.1 <= max
    ensures IsDecimalLiteral(pageStr) && start <= end ==> r.0 <= r.1
  {
    match PageOffset(pageStr, limit)
    case None => (start, end)
    case Some(offset) => (Min(Max(0, start + offset), max), Max(Min(max, end + offset), 0))
  }

  /** A page that keeps the shifted range inside [0, max] moves it by exactly page * limit. */
  lemma PaginateShifts(start: int, end: int, limit: int, max: nat, pageStr: string, page: int)
    requires Atoi(pageStr) == Some(page)
    requires 0 <= start + page * limit && end + page * limit <= max && start <= end
    ensures Paginate(start, end, limit, max, pageStr) == (start + page * limit, end + page * limit)
  {
  }

  /** A page past the end gives the empty range at max; one before the beginning, the empty range at 0. */
  lemma PaginateOutside(start: int, end: int, limit: int, max: nat, pageStr: string, page: int)
    requires Atoi(pageStr) == Some(page) && start <= end
    ensures start + page * limit >= max ==> Paginate(start, end, limit, max, pageStr) == (max, max)
    ensures end + page * limit <= 0 ==> Paginate(start, end, limit, max, pageStr) == (0, 0)
  {
  }

  /** With a limit of 0 (what getEventList passes when no limit parsed), a range inside [0, max] is kept. */
  lemma PaginateZeroLimit(start: int, end: int, max: nat, pageStr: string)
    requires 0 <= start <= end <= max
    ensures Paginate(start, end, 0, max, pageStr) == (start, end)
  {
  }

  /** Clamping never widens the range: the page holds at most the events of the window. */
  lemma PaginateNarrows(start: int, end: int, limit: int, max: nat, pageStr: string)
    requires start <= end
    ensures Paginate(start, end, limit, max, pageStr).1 - Paginate(start, end, limit, max, pageStr).0 <= end - start
  {
  }
}
